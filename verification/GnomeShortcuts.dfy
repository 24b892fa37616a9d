/** Setting up the GNOME overlay shortcuts (overlay/gnome_shortcuts.py): plan, write, verify,
    merge, and roll back, over a settings store any of whose commands may fail. */
module GnomeShortcuts {
  import opened Wrappers

  // ---------------------------------------------------------------------------
  // The store
  // ---------------------------------------------------------------------------

  datatype Entry = Entry(name: string, command: string, binding: string) {
    function Get(key: Key): string {
      match key
      case Name => name
      case Command => command
      case Binding => binding
    }

    function Set(key: Key, value: string): Entry {
      match key
      case Name => this.(name := value)
      case Command => this.(command := value)
      case Binding => this.(binding := value)
    }
  }

  datatype Key = Name | Command | Binding

  const EMPTY := Entry("", "", "")

  /** `_writes` of the source: path, key and value of one `gsettings set`. */
  datatype Write = Write(path: string, key: Key, value: string)

  /** The custom entries (absent ones read as empty) and the list that activates them. */
  datatype Store = Store(entries: map<string, Entry>, paths: seq<string>) {
    function At(path: string): Entry {
      if path in entries then entries[path] else EMPTY
    }

    function With(w: Write): Store {
      this.(entries := entries[w.path := At(w.path).Set(w.key, w.value)])
    }
  }

  ghost predicate SameEntries(s: Store, s': Store) {
    forall p :: s.At(p) == s'.At(p)
  }

  ghost predicate SameStore(s: Store, s': Store) {
    SameEntries(s, s') && s.paths == s'.paths
  }

  function Applied(s: Store, writes: seq<Write>): Store {
    if writes == [] then s else Applied(s, writes[..|writes| - 1]).With(writes[|writes| - 1])
  }

  ghost predicate NoRepeats<T>(s: seq<T>) {
    forall i, j | 0 <= i < j < |s| :: s[i] != s[j]
  }

  // ---------------------------------------------------------------------------
  // The plan
  // ---------------------------------------------------------------------------

  /** A label and the command-line flag it stands for. */
  datatype Action = Action(title: string, flag: string)

  datatype Planned = Planned(path: string, title: string, entry: Entry)

  /** What the plan takes from the rest of the program: which action a command runs, the
      normal form of an accelerator, the default accelerators and the commands. */
  datatype Desktop = Desktop(actionOf: string -> Option<string>, normal: string -> string,
                             defaultBinding: string -> string, commandFor: string -> string)

  const CUSTOM_PATH := "/org/gnome/settings-daemon/plugins/media-keys/custom-keybindings/"
  const FLAG_PREFIX := "--overlay-"

  const SHORTCUT_ACTIONS := [
    Action("Toggle overlay", "--overlay-toggle"),
    Action("Cycle overlay preset", "--overlay-detail-next"),
    Action("Cycle frame timing graphs", "--overlay-graph-next"),
    Action("Cycle background opacity", "--overlay-opacity-next"),
    Action("Decrease overlay Scale", "--overlay-scale-down"),
    Action("Increase overlay Scale", "--overlay-scale-up"),
    Action("Previous overlay position", "--overlay-position-prev"),
    Action("Next overlay position", "--overlay-position-next")
  ]

  function Stem(flag: string): string {
    "penguinburner-" + if FLAG_PREFIX <= flag then flag[|FLAG_PREFIX|..] else flag
  }

  function Decimal(n: nat): string {
    var digit := ["0", "1", "2", "3", "4", "5", "6", "7", "8", "9"][n % 10];
    if n < 10 then digit else Decimal(n / 10) + digit
  }

  function CandidatePath(flag: string, index: nat): string {
    CUSTOM_PATH + Stem(flag) + (if index == 1 then "" else "-" + Decimal(index)) + "/"
  }

  /** The number that digits stand for. */
  function NumberOf(digits: string): int {
    if digits == [] then 0
    else 10 * NumberOf(digits[..|digits| - 1]) + (digits[|digits| - 1] as int - '0' as int)
  }

  lemma {:induction false} DecimalReadsBack(n: nat)
    ensures Decimal(n) != "" && NumberOf(Decimal(n)) == n
    ensures forall i | 0 <= i < |Decimal(n)| :: '0' <= Decimal(n)[i] <= '9'
    ensures n > 0 ==> Decimal(n)[0] != '0'
  {
    if n >= 10 {
      DecimalReadsBack(n / 10);
      var k := |Decimal(n)| - 1;
      assert Decimal(n)[..k] == Decimal(n / 10);
      assert Decimal(n)[0] == Decimal(n / 10)[0];
    }
  }

  /** The candidate paths of a flag: named after it, and numbered in decimal from the second one on. */
  lemma CandidatePathIs(rest: string, index: nat)
    ensures CandidatePath("--overlay-" + rest, index)
         == "/org/gnome/settings-daemon/plugins/media-keys/custom-keybindings/" + ("penguinburner-" + rest)
            + (if index == 1 then "" else "-" + Decimal(index)) + "/"
    ensures NumberOf(Decimal(index)) == index
  {
    StemOf(rest);
    DecimalReadsBack(index);
  }

  /** No two actions ever try the same path. */
  ghost predicate ApartFlags(flag: string, flag': string) {
    forall m, n :: CandidatePath(flag, m) != CandidatePath(flag', n)
  }

  ghost predicate PathsApart(actions: seq<Action>) {
    forall i, j | 0 <= i < j < |actions| :: ApartFlags(actions[i].flag, actions[j].flag)
  }

  lemma DifferentStemsAreApart(flag: string, flag': string, k: nat)
    requires k < |Stem(flag)| && k < |Stem(flag')| && Stem(flag)[k] != Stem(flag')[k]
    ensures ApartFlags(flag, flag')
  {
    forall m, n ensures CandidatePath(flag, m) != CandidatePath(flag', n) {
      assert CandidatePath(flag, m)[|CUSTOM_PATH| + k] == Stem(flag)[k];
      assert CandidatePath(flag', n)[|CUSTOM_PATH| + k] == Stem(flag')[k];
    }
  }

  lemma StemOf(rest: string)
    ensures Stem(FLAG_PREFIX + rest) == "penguinburner-" + rest
  {
    assert (FLAG_PREFIX + rest)[|FLAG_PREFIX|..] == rest;
  }

  /** Two flags whose names differ at a letter, both names being that long. */
  lemma DifferentNamesAreApart(rest: string, rest': string, k: nat)
    requires k < |rest| && k < |rest'| && rest[k] != rest'[k]
    ensures ApartFlags(FLAG_PREFIX + rest, FLAG_PREFIX + rest')
  {
    StemOf(rest);
    StemOf(rest');
    DifferentStemsAreApart(FLAG_PREFIX + rest, FLAG_PREFIX + rest', |"penguinburner-"| + k);
  }

  const NAMES := ["toggle", "detail-next", "graph-next", "opacity-next",
                  "scale-down", "scale-up", "position-prev", "position-next"]

  lemma ShippedNames(i: nat)
    requires i < |SHORTCUT_ACTIONS|
    ensures SHORTCUT_ACTIONS[i].flag == FLAG_PREFIX + NAMES[i]
    ensures NAMES[i] != "" && NAMES[i][0] == ['t', 'd', 'g', 'o', 's', 's', 'p', 'p'][i]
  {
  }

  /** The shipped names differ in their first letter, or else, for the two scale and the two
      position actions, further on. */
  lemma ShippedActionsAreApart()
    ensures PathsApart(SHORTCUT_ACTIONS)
  {
    forall i, j | 0 <= i < j < |SHORTCUT_ACTIONS|
      ensures ApartFlags(SHORTCUT_ACTIONS[i].flag, SHORTCUT_ACTIONS[j].flag)
    {
      ShippedNames(i);
      ShippedNames(j);
      if i == 4 && j == 5 {
        DifferentNamesAreApart(NAMES[4], NAMES[5], 6);
      } else if i == 6 && j == 7 {
        DifferentNamesAreApart(NAMES[6], NAMES[7], 9);
      } else {
        DifferentNamesAreApart(NAMES[i], NAMES[j], 0);
      }
    }
  }

  // ---------------------------------------------------------------------------
  // gsettings on the host
  // ---------------------------------------------------------------------------

  /** What becomes of a command: it works, it fails without effect, or (for a write) it
      reports success without effect. */
  datatype Fault = Works | Fails | Dropped

  class Gsettings {
    const fault: nat -> Fault
    var calls: nat
    var store: Store

    constructor (fault: nat -> Fault, store: Store)
      ensures this.fault == fault && this.store == store && calls == 0
    {
      this.fault := fault;
      this.store := store;
      calls := 0;
    }

    method Check() returns (ok: bool)
      modifies this`calls
      ensures calls == old(calls) + 1
      ensures ok <==> !fault(old(calls)).Fails?
    {
      ok := !fault(calls).Fails?;
      calls := calls + 1;
    }

    method Get(path: string, key: Key) returns (r: Option<string>)
      modifies this`calls
      ensures calls == old(calls) + 1
      ensures r == if fault(old(calls)).Fails? then None else Some(store.At(path).Get(key))
    {
      r := if fault(calls).Fails? then None else Some(store.At(path).Get(key));
      calls := calls + 1;
    }

    method ReadPaths() returns (r: Option<seq<string>>)
      modifies this`calls
      ensures calls == old(calls) + 1
      ensures r == if fault(old(calls)).Fails? then None else Some(store.paths)
    {
      r := if fault(calls).Fails? then None else Some(store.paths);
      calls := calls + 1;
    }

    /** `set`, and with the empty string `reset`. */
    method Set(w: Write) returns (ok: bool)
      modifies this
      ensures calls == old(calls) + 1
      ensures ok <==> !fault(old(calls)).Fails?
      ensures store == if fault(old(calls)).Works? then old(store).With(w) else old(store)
    {
      ok := !fault(calls).Fails?;
      if fault(calls).Works? {
        store := store.With(w);
      }
      calls := calls + 1;
    }

    method SetPaths(paths: seq<string>) returns (ok: bool)
      modifies this
      ensures calls == old(calls) + 1
      ensures ok <==> !fault(old(calls)).Fails?
      ensures store == if fault(old(calls)).Works? then old(store).(paths := paths) else old(store)
    {
      ok := !fault(calls).Fails?;
      if fault(calls).Works? {
        store := store.(paths := paths);
      }
      calls := calls + 1;
    }

    /** `_read_entry`: three reads. */
    method ReadEntry(path: string) returns (r: Option<Entry>)
      modifies this`calls
      ensures calls >= old(calls)
      ensures r.Some? ==> r.value == store.At(path)
      ensures r.None? ==> exists m | old(calls) <= m < calls :: fault(m).Fails?
    {
      var name := Get(path, Name);
      if name.None? {
        return None;
      }
      var command := Get(path, Command);
      if command.None? {
        return None;
      }
      var binding := Get(path, Binding);
      if binding.None? {
        return None;
      }
      r := Some(Entry(name.value, command.value, binding.value));
    }
  }

  ghost predicate NoFault(fault: nat -> Fault, from: nat, to: nat, kind: Fault) {
    forall m | from <= m < to :: fault(m) != kind
  }

  ghost predicate AllWork(fault: nat -> Fault, from: nat, to: nat) {
    forall m | from <= m < to :: fault(m).Works?
  }

  // ---------------------------------------------------------------------------
  // Rolling back
  // ---------------------------------------------------------------------------

  /** What the writes alone add up to, over empty entries. */
  function Expected(writes: seq<Write>): Store {
    Applied(Store(map[], []), writes)
  }

  ghost predicate TouchesWithin(writes: seq<Write>, n: nat, path: string)
    requires n <= |writes|
  {
    exists i | 0 <= i < n :: writes[i].path == path
  }

  ghost predicate Touches(writes: seq<Write>, path: string) {
    TouchesWithin(writes, |writes|, path)
  }

  /** The entry still holds exactly what was written. */
  ghost predicate AsWritten(s: Store, writes: seq<Write>, path: string) {
    s.At(path) == Expected(writes).At(path)
  }

  ghost predicate DistinctSlots(writes: seq<Write>) {
    forall i, j | 0 <= i < j < |writes| :: writes[i].path != writes[j].path || writes[i].key != writes[j].key
  }

  function Without(paths: seq<string>, gone: set<string>): seq<string> {
    if paths == [] then []
    else Without(paths[..|paths| - 1], gone) +
         if paths[|paths| - 1] in gone then [] else [paths[|paths| - 1]]
  }

  /** The entries as an undisturbed rollback leaves them. */
  ghost predicate EntriesRolledBack(s: Store, s': Store, writes: seq<Write>) {
    forall p :: s'.At(p) == if Touches(writes, p) && AsWritten(s, writes, p) then EMPTY else s.At(p)
  }

  ghost predicate AllAsWritten(s: Store, writes: seq<Write>) {
    forall p | Touches(writes, p) :: AsWritten(s, writes, p)
  }

  lemma {:induction false} UnwrittenSlotIsEmpty(writes: seq<Write>, path: string, key: Key)
    requires forall i | 0 <= i < |writes| :: writes[i].path != path || writes[i].key != key
    ensures Expected(writes).At(path).Get(key) == ""
    decreases |writes|
  {
    if writes != [] {
      UnwrittenSlotIsEmpty(writes[..|writes| - 1], path, key);
    }
  }

  lemma {:induction false} UntouchedPathIsEmpty(writes: seq<Write>, path: string)
    requires !Touches(writes, path)
    ensures Expected(writes).At(path) == EMPTY
    decreases |writes|
  {
    if writes != [] {
      var before, last := writes[..|writes| - 1], writes[|writes| - 1];
      assert writes[|writes| - 1].path != path;
      forall i | 0 <= i < |before| ensures before[i].path != path {
        assert writes[i].path != path;
      }
      UntouchedPathIsEmpty(before, path);
    }
  }

  /** Resetting the last slot takes the last write back. */
  lemma ResetUndoesLastWrite(writes: seq<Write>, path: string)
    requires writes != [] && DistinctSlots(writes)
    ensures var w := writes[|writes| - 1]; var before := writes[..|writes| - 1];
      && Expected(writes).At(w.path).Get(w.key) == w.value
      && Expected(writes).With(Write(w.path, w.key, "")).At(path) == Expected(before).At(path)
  {
    var w, before := writes[|writes| - 1], writes[..|writes| - 1];
    UnwrittenSlotIsEmpty(before, w.path, w.key);
  }

  lemma TouchesOneMore(writes: seq<Write>, i: nat, p: string)
    requires i < |writes|
    ensures TouchesWithin(writes, i + 1, p) <==> TouchesWithin(writes, i, p) || p == writes[i].path
  {
    if TouchesWithin(writes, i, p) {
      var m :| 0 <= m < i && writes[m].path == p;
      assert m < i + 1;
    }
    if p == writes[i].path {
      assert TouchesWithin(writes, i + 1, p);
    }
  }

  /** The schemas `_rollback` looks at, and those it finds as written. */
  method FindUntouched(g: Gsettings, writes: seq<Write>) returns (untouched: set<string>, clean: bool)
    modifies g`calls
    ensures g.calls >= old(g.calls)
    ensures forall p | p in untouched :: Touches(writes, p) && AsWritten(g.store, writes, p)
    ensures clean ==> forall p | Touches(writes, p) :: p in untouched
    ensures NoFault(g.fault, old(g.calls), g.calls, Fails) ==>
      && (forall p | Touches(writes, p) && AsWritten(g.store, writes, p) :: p in untouched)
      && (clean <==> AllAsWritten(g.store, writes))
  {
    untouched, clean := {}, true;
    var seen: set<string> := {};
    for i := 0 to |writes|
      invariant g.calls >= old(g.calls)
      invariant forall p :: p in seen <==> TouchesWithin(writes, i, p)
      invariant forall p | p in untouched :: p in seen && AsWritten(g.store, writes, p)
      invariant clean ==> untouched == seen
      invariant NoFault(g.fault, old(g.calls), g.calls, Fails) ==>
        && (forall p | p in seen && AsWritten(g.store, writes, p) :: p in untouched)
        && (!clean ==> exists p :: p in seen && !AsWritten(g.store, writes, p))
    {
      var path := writes[i].path;
      forall p ensures TouchesWithin(writes, i + 1, p) <==> TouchesWithin(writes, i, p) || p == path {
        TouchesOneMore(writes, i, p);
      }
      if path !in seen {
        var expected := Expected(writes).At(path);
        var entry := g.ReadEntry(path);
        if entry == Some(expected) {
          untouched := untouched + {path};
        } else {
          clean := false;
        }
        seen := seen + {path};
      }
    }
  }

  /** The paths `_rollback` leaves in the list. */
  method RemovePaths(g: Gsettings, added: seq<string>, untouched: set<string>) returns (ok: bool)
    modifies g
    ensures g.calls >= old(g.calls)
    ensures g.store.entries == old(g.store.entries)
    ensures NoFault(g.fault, old(g.calls), g.calls, Dropped) && ok ==>
      g.store.paths == Without(old(g.store.paths), (set p | p in added) * untouched)
    ensures NoFault(g.fault, old(g.calls), g.calls, Fails) ==> ok
  {
    var current := g.ReadPaths();
    if current.None? {
      return false;
    }
    var removable := (set p | p in added) * untouched;
    var remaining := Without(current.value, removable);
    ok := true;
    if remaining != current.value {
      ok := g.SetPaths(remaining);
    }
  }

  /** Take the writes of the untouched entries back, last one first. */
  method ResetWrites(g: Gsettings, writes: seq<Write>, untouched: set<string>) returns (ok: bool)
    requires DistinctSlots(writes)
    requires forall p | p in untouched :: Touches(writes, p) && AsWritten(g.store, writes, p)
    modifies g
    ensures g.calls >= old(g.calls)
    ensures g.store.paths == old(g.store.paths)
    ensures NoFault(g.fault, old(g.calls), g.calls, Dropped) && ok ==>
      forall p :: g.store.At(p) == if p in untouched then EMPTY else old(g.store).At(p)
    ensures NoFault(g.fault, old(g.calls), g.calls, Dropped) && NoFault(g.fault, old(g.calls), g.calls, Fails) ==> ok
  {
    ok := true;
    var n := |writes|;
    assert writes[..n] == writes;
    while n > 0
      invariant 0 <= n <= |writes|
      invariant g.calls >= old(g.calls)
      invariant g.store.paths == old(g.store.paths)
      invariant NoFault(g.fault, old(g.calls), g.calls, Dropped) && ok ==>
        forall p :: g.store.At(p) == if p in untouched then Expected(writes[..n]).At(p) else old(g.store).At(p)
      invariant NoFault(g.fault, old(g.calls), g.calls, Dropped) && NoFault(g.fault, old(g.calls), g.calls, Fails)
                ==> ok
    {
      var w := writes[n - 1];
      assert writes[..n][..n - 1] == writes[..n - 1];
      forall p ensures Expected(writes[..n]).With(Write(w.path, w.key, "")).At(p) == Expected(writes[..n - 1]).At(p) {
        ResetUndoesLastWrite(writes[..n], p);
      }
      ResetUndoesLastWrite(writes[..n], w.path);
      if w.path in untouched {
        var value := g.Get(w.path, w.key);
        if value == Some(w.value) {
          var done := g.Set(Write(w.path, w.key, ""));
          ok := ok && done;
        } else {
          ok := false;
        }
      }
      n := n - 1;
    }
    assert forall p :: Expected(writes[..0]).At(p) == EMPTY;
  }

  /** The added paths whose entries are as written are off the list. */
  ghost predicate PathsRolledBack(before: Store, after: Store, writes: seq<Write>, added: seq<string>) {
    after.paths == Without(before.paths, set p | p in added && AsWritten(before, writes, p))
  }

  /** `_rollback`.  Whatever fails, "clean" is only said when everything written is gone again;
      and when nothing fails, exactly the entries still holding what was written are emptied. */
  method Rollback(g: Gsettings, writes: seq<Write>, added: seq<string>) returns (clean: bool)
    requires DistinctSlots(writes)
    requires forall p | p in added :: Touches(writes, p)
    modifies g
    ensures g.calls >= old(g.calls)
    ensures NoFault(g.fault, old(g.calls), g.calls, Dropped) && clean ==>
      && AllAsWritten(old(g.store), writes)
      && EntriesRolledBack(old(g.store), g.store, writes)
      && g.store.paths == Without(old(g.store.paths), set p | p in added)
    ensures NoFault(g.fault, old(g.calls), g.calls, Dropped) && NoFault(g.fault, old(g.calls), g.calls, Fails) ==>
      && EntriesRolledBack(old(g.store), g.store, writes)
      && PathsRolledBack(old(g.store), g.store, writes, added)
      && (clean <==> AllAsWritten(old(g.store), writes))
  {
    var untouched;
    untouched, clean := FindUntouched(g, writes);
    var removed := RemovePaths(g, added, untouched);
    var reset := ResetWrites(g, writes, untouched);
    assert clean ==> (set p | p in added) * untouched == set p | p in added;
    ghost var before := old(g.store);
    assert NoFault(g.fault, old(g.calls), g.calls, Fails) ==>
      (set p | p in added) * untouched == set p | p in added && AsWritten(before, writes, p);
    clean := clean && removed && reset;
  }

  // ---------------------------------------------------------------------------
  // Planning
  // ---------------------------------------------------------------------------

  function TitlesOf(planned: seq<Planned>): seq<string> {
    seq(|planned|, i requires 0 <= i < |planned| => planned[i].title)
  }

  function ActionTitles(actions: seq<Action>): seq<string> {
    seq(|actions|, i requires 0 <= i < |actions| => actions[i].title)
  }

  /** The planned entries go to distinct, unused, inactive paths. */
  ghost predicate PlanIsFresh(s: Store, planned: seq<Planned>) {
    && (forall i | 0 <= i < |planned| :: s.At(planned[i].path) == EMPTY && planned[i].path !in s.paths)
    && (forall i, j | 0 <= i < j < |planned| :: planned[i].path != planned[j].path)
  }

  /** No planned accelerator is one that is taken, nor one another planned entry gets. */
  ghost predicate PlanAvoids(normal: string -> string, occupied: set<string>, planned: seq<Planned>) {
    && (forall i | 0 <= i < |planned| && planned[i].entry.binding != "" ::
          normal(planned[i].entry.binding) !in occupied)
    && (forall i, j | 0 <= i < j < |planned| && planned[i].entry.binding != "" && planned[j].entry.binding != "" ::
          normal(planned[i].entry.binding) != normal(planned[j].entry.binding))
  }

  /** The normal forms of the accelerators of the active entries. */
  ghost function OccupiedBy(normal: string -> string, s: Store): set<string> {
    set p | p in s.paths && s.At(p).binding != "" :: normal(s.At(p).binding)
  }

  datatype Choice = Preserve | Use(path: string) | Exhausted | Unreadable

  const CANDIDATES := 100

  /** The entry runs the action. */
  ghost predicate Runs(d: Desktop, s: Store, path: string, flag: string) {
    d.actionOf(s.At(path).command) == Some(flag)
  }

  /** Candidate `n` of the action is passed over: it neither runs the action nor is free. */
  ghost predicate IsPassed(d: Desktop, s: Store, flag: string, n: nat) {
    && !Runs(d, s, CandidatePath(flag, n), flag)
    && (CandidatePath(flag, n) in s.paths || s.At(CandidatePath(flag, n)) != EMPTY)
  }

  /** The first candidate that is not passed over. */
  ghost predicate FirstOpen(d: Desktop, s: Store, flag: string, n: nat) {
    1 <= n <= 100 && !IsPassed(d, s, flag, n) && forall m | 1 <= m < n :: IsPassed(d, s, flag, m)
  }

  ghost predicate HasRoom(d: Desktop, s: Store, flag: string) {
    exists n: nat :: 1 <= n <= 100 && !IsPassed(d, s, flag, n)
  }

  /** What the first open candidate decides: it runs the action already, or it is a free path for it. */
  ghost predicate DecidedBy(d: Desktop, s: Store, flag: string, c: Choice, n: nat) {
    && FirstOpen(d, s, flag, n)
    && c == if Runs(d, s, CandidatePath(flag, n), flag) then Preserve else Use(CandidatePath(flag, n))
  }

  /** The inner loop: the first path that already runs the action, or is free. */
  method ChoosePath(g: Gsettings, d: Desktop, flag: string) returns (c: Choice)
    modifies g`calls
    ensures g.calls >= old(g.calls)
    ensures c.Preserve? || c.Use? ==> exists n: nat :: DecidedBy(d, g.store, flag, c, n)
    ensures c.Exhausted? ==> !HasRoom(d, g.store, flag)
    ensures c.Unreadable? ==> !NoFault(g.fault, old(g.calls), g.calls, Fails)
  {
    for index := 1 to CANDIDATES + 1
      invariant g.calls >= old(g.calls)
      invariant forall m: nat | 1 <= m < index :: IsPassed(d, g.store, flag, m)
    {
      var path := CandidatePath(flag, index);
      var entry := g.ReadEntry(path);
      if entry.None? {
        return Unreadable;
      }
      if d.actionOf(entry.value.command) == Some(flag) {
        assert DecidedBy(d, g.store, flag, Preserve, index);
        return Preserve;
      }
      if path !in g.store.paths && entry.value == EMPTY {
        assert DecidedBy(d, g.store, flag, Use(path), index);
        return Use(path);
      }
    }
    return Exhausted;
  }

  /** What becomes of an action: it is preserved because an active entry runs it, or as its first open
      candidate decides. */
  ghost predicate Served(d: Desktop, s: Store, existing: set<string>, flag: string, c: Choice) {
    if flag in existing then c == Preserve
    else exists n: nat :: DecidedBy(d, s, flag, c, n)
  }

  /** The titles of the preserved actions. */
  function PreservedOf(actions: seq<Action>, choices: seq<Choice>): seq<string>
    requires |choices| == |actions|
  {
    if actions == [] then []
    else
      var n := |actions| - 1;
      PreservedOf(actions[..n], choices[..n]) + if choices[n].Preserve? then [actions[n].title] else []
  }

  /** The accelerators in use once the planned entries have theirs. */
  function InUse(d: Desktop, taken: set<string>, planned: seq<Planned>): set<string> {
    taken + set m | 0 <= m < |planned| :: d.normal(planned[m].entry.binding)
  }

  predicate Conflicts(d: Desktop, inUse: set<string>, flag: string) {
    d.normal(d.defaultBinding(flag)) in inUse
  }

  /** The entry of a new action: its own label and command, and its default accelerator unless that
      is in use. */
  function EntryFor(d: Desktop, inUse: set<string>, action: Action): Entry {
    Entry("PenguinBurner: " + action.title, d.commandFor(action.flag),
          if Conflicts(d, inUse, action.flag) then "" else d.defaultBinding(action.flag))
  }

  /** The planned entries. */
  function PlannedOf(d: Desktop, taken: set<string>, actions: seq<Action>, choices: seq<Choice>): seq<Planned>
    requires |choices| == |actions|
  {
    if actions == [] then []
    else
      var n := |actions| - 1;
      var before := PlannedOf(d, taken, actions[..n], choices[..n]);
      before + if choices[n].Use?
               then [Planned(choices[n].path, actions[n].title, EntryFor(d, InUse(d, taken, before), actions[n]))]
               else []
  }

  /** The titles of the new actions that go without their default accelerator. */
  function ConflictsOf(d: Desktop, taken: set<string>, actions: seq<Action>, choices: seq<Choice>): seq<string>
    requires |choices| == |actions|
  {
    if actions == [] then []
    else
      var n := |actions| - 1;
      var before := PlannedOf(d, taken, actions[..n], choices[..n]);
      ConflictsOf(d, taken, actions[..n], choices[..n]) +
      if choices[n].Use? && Conflicts(d, InUse(d, taken, before), actions[n].flag) then [actions[n].title] else []
  }

  /** The path was tried for the action at `index`. */
  ghost predicate TriedFor(actions: seq<Action>, index: nat, path: string) {
    index < |actions| && exists n: nat :: path == CandidatePath(actions[index].flag, n)
  }

  lemma TriedPathsDiffer(actions: seq<Action>, i: nat, path: string, j: nat, path': string)
    requires PathsApart(actions) && i < j
    requires TriedFor(actions, i, path) && TriedFor(actions, j, path')
    ensures path != path'
  {
    assert ApartFlags(actions[i].flag, actions[j].flag);
  }

  datatype Plan = Plan(ok: bool, planned: seq<Planned>, preserved: seq<string>, conflicts: seq<string>)

  /** The accelerators so far are apart, and all of them are in `occupied`. */
  ghost predicate Avoiding(normal: string -> string, taken: set<string>, occupied: set<string>, planned: seq<Planned>) {
    && taken <= occupied
    && (forall m | 0 <= m < |planned| :: normal(planned[m].entry.binding) in occupied)
    && PlanAvoids(normal, taken, planned)
  }

  lemma AvoidOneMore(normal: string -> string, taken: set<string>, occupied: set<string>,
                     planned: seq<Planned>, next: Planned)
    requires Avoiding(normal, taken, occupied, planned)
    requires next.entry.binding == "" || normal(next.entry.binding) !in occupied
    ensures Avoiding(normal, taken, occupied + {normal(next.entry.binding)}, planned + [next])
  {
  }

  /** The paths so far are fresh, and each was tried for a different action. */
  ghost predicate Placing(s: Store, actions: seq<Action>, i: nat, indices: seq<nat>, planned: seq<Planned>) {
    && |indices| == |planned|
    && (forall m | 0 <= m < |indices| :: indices[m] < i && TriedFor(actions, indices[m], planned[m].path))
    && PlanIsFresh(s, planned)
  }

  lemma PlaceOneMore(s: Store, actions: seq<Action>, i: nat, indices: seq<nat>, planned: seq<Planned>, next: Planned)
    requires PathsApart(actions) && Placing(s, actions, i, indices, planned)
    requires TriedFor(actions, i, next.path) && s.At(next.path) == EMPTY && next.path !in s.paths
    ensures Placing(s, actions, i + 1, indices + [i], planned + [next])
  {
    forall m | 0 <= m < |planned| ensures planned[m].path != next.path {
      TriedPathsDiffer(actions, indices[m], planned[m].path, i, next.path);
    }
  }

  /** The plan so far, and what it was made from. */
  ghost predicate Planning(d: Desktop, s: Store, actions: seq<Action>, existing: set<string>, taken: set<string>,
                           choices: seq<Choice>, plan: Plan)
  {
    && |choices| <= |actions|
    && (forall i | 0 <= i < |choices| :: Served(d, s, existing, actions[i].flag, choices[i]))
    && plan.preserved == PreservedOf(actions[..|choices|], choices)
    && plan.planned == PlannedOf(d, taken, actions[..|choices|], choices)
    && plan.conflicts == ConflictsOf(d, taken, actions[..|choices|], choices)
  }

  /** The plan with one more action in it. */
  ghost predicate Extends(d: Desktop, taken: set<string>, action: Action, c: Choice, plan: Plan, next: Plan) {
    var inUse := InUse(d, taken, plan.planned);
    && next.ok
    && next.preserved == plan.preserved + (if c.Preserve? then [action.title] else [])
    && next.planned == plan.planned +
         (if c.Use? then [Planned(c.path, action.title, EntryFor(d, inUse, action))] else [])
    && next.conflicts == plan.conflicts + (if c.Use? && Conflicts(d, inUse, action.flag) then [action.title] else [])
  }

  lemma PlanOneMore(d: Desktop, s: Store, actions: seq<Action>, existing: set<string>, taken: set<string>,
                    choices: seq<Choice>, plan: Plan, c: Choice, next: Plan)
    requires Planning(d, s, actions, existing, taken, choices, plan) && |choices| < |actions|
    requires Served(d, s, existing, actions[|choices|].flag, c)
    requires Extends(d, taken, actions[|choices|], c, plan, next)
    ensures Planning(d, s, actions, existing, taken, choices + [c], next)
  {
    var n := |choices|;
    assert actions[..n + 1][..n] == actions[..n] && (choices + [c])[..n] == choices;
  }

  lemma ServedHasRoom(d: Desktop, s: Store, existing: set<string>, flag: string, c: Choice)
    requires Served(d, s, existing, flag, c)
    ensures flag in existing || HasRoom(d, s, flag)
  {
  }

  lemma InUseOneMore(d: Desktop, taken: set<string>, planned: seq<Planned>, next: Planned)
    ensures InUse(d, taken, planned + [next]) == InUse(d, taken, planned) + {d.normal(next.entry.binding)}
  {
    var more := planned + [next];
    assert more[|planned|] == next;
    assert forall m | 0 <= m < |planned| :: more[m] == planned[m];
    assert d.normal(more[|planned|].entry.binding) in InUse(d, taken, more);
    assert forall m | 0 <= m < |planned| :: d.normal(more[m].entry.binding) == d.normal(planned[m].entry.binding);
  }

  /** What is done with one action. */
  method PlanAction(g: Gsettings, d: Desktop, action: Action, existing: set<string>, ghost taken: set<string>,
                    plan: Plan, occupied: set<string>)
    returns (choice: Choice, next: Plan, occupied': set<string>)
    requires plan.ok && occupied == InUse(d, taken, plan.planned)
    modifies g`calls
    ensures g.calls >= old(g.calls)
    ensures choice.Preserve? || choice.Use? ==>
      && Served(d, g.store, existing, action.flag, choice)
      && Extends(d, taken, action, choice, plan, next) && occupied' == InUse(d, taken, next.planned)
    ensures choice.Exhausted? ==> action.flag !in existing && !HasRoom(d, g.store, action.flag)
    ensures choice.Unreadable? ==> !NoFault(g.fault, old(g.calls), g.calls, Fails)
  {
    choice, next, occupied' := Preserve, plan, occupied;
    if action.flag !in existing {
      choice := ChoosePath(g, d, action.flag);
    }
    match choice {
      case Preserve =>
        next := plan.(preserved := plan.preserved + [action.title]);
      case Use(path) =>
        var binding := d.defaultBinding(action.flag);
        if d.normal(binding) in occupied {
          binding := "";
          next := next.(conflicts := plan.conflicts + [action.title]);
        }
        var added := Planned(path, action.title,
                             Entry("PenguinBurner: " + action.title, d.commandFor(action.flag), binding));
        InUseOneMore(d, taken, plan.planned, added);
        next := next.(planned := plan.planned + [added]);
        occupied' := occupied + {d.normal(binding)};
      case Exhausted =>
      case Unreadable =>
    }
  }

  /** The planning half of `setup_gnome_shortcuts`: which actions are there already, and where
      the others go.  `taken` holds the normal forms of every accelerator in use. */
  method MakePlan(g: Gsettings, d: Desktop, actions: seq<Action>, existing: set<string>, taken: set<string>)
    returns (plan: Plan, ghost choices: seq<Choice>)
    modifies g`calls
    ensures g.calls >= old(g.calls)
    ensures plan.ok ==> |choices| == |actions| && Planning(d, g.store, actions, existing, taken, choices, plan)
    ensures NoFault(g.fault, old(g.calls), g.calls, Fails) ==>
      (plan.ok <==> forall i | 0 <= i < |actions| ::
        actions[i].flag in existing || HasRoom(d, g.store, actions[i].flag))
  {
    plan := Plan(true, [], [], []);
    var occupied := taken;
    choices := [];
    for i := 0 to |actions|
      invariant g.calls >= old(g.calls)
      invariant plan.ok && |choices| == i && Planning(d, g.store, actions, existing, taken, choices, plan)
      invariant occupied == InUse(d, taken, plan.planned)
    {
      var choice, next, occupied' := PlanAction(g, d, actions[i], existing, taken, plan, occupied);
      if choice.Unreadable? || choice.Exhausted? {
        return Plan(false, [], [], []), choices;
      }
      PlanOneMore(d, g.store, actions, existing, taken, choices, plan, choice, next);
      plan, occupied, choices := next, occupied', choices + [choice];
    }
    forall i | 0 <= i < |actions| ensures actions[i].flag in existing || HasRoom(d, g.store, actions[i].flag) {
      ServedHasRoom(d, g.store, existing, actions[i].flag, choices[i]);
    }
  }

  /** Every action was either preserved or planned, exactly once. */
  ghost predicate Accounted(actions: seq<Action>, preserved: seq<string>, planned: seq<Planned>) {
    multiset(preserved) + multiset(TitlesOf(planned)) == multiset(ActionTitles(actions))
  }

  lemma AccountPreserved(actions: seq<Action>, preserved: seq<string>, planned: seq<Planned>)
    requires actions != [] && Accounted(actions[..|actions| - 1], preserved, planned)
    ensures Accounted(actions, preserved + [actions[|actions| - 1].title], planned)
  {
    assert ActionTitles(actions) == ActionTitles(actions[..|actions| - 1]) + [actions[|actions| - 1].title];
  }

  lemma AccountPlanned(actions: seq<Action>, preserved: seq<string>, planned: seq<Planned>, next: Planned)
    requires actions != [] && Accounted(actions[..|actions| - 1], preserved, planned)
    requires next.title == actions[|actions| - 1].title
    ensures Accounted(actions, preserved, planned + [next])
  {
    assert ActionTitles(actions) == ActionTitles(actions[..|actions| - 1]) + [actions[|actions| - 1].title];
    assert TitlesOf(planned + [next]) == TitlesOf(planned) + [next.title];
  }

  lemma {:induction false} PlanAccounts(d: Desktop, actions: seq<Action>, taken: set<string>, choices: seq<Choice>)
    requires |choices| == |actions| && forall i | 0 <= i < |choices| :: choices[i].Preserve? || choices[i].Use?
    ensures Accounted(actions, PreservedOf(actions, choices), PlannedOf(d, taken, actions, choices))
    decreases |actions|
  {
    if actions != [] {
      var n := |actions| - 1;
      var preserved := PreservedOf(actions[..n], choices[..n]);
      var planned := PlannedOf(d, taken, actions[..n], choices[..n]);
      PlanAccounts(d, actions[..n], taken, choices[..n]);
      if choices[n].Use? {
        var next := Planned(choices[n].path, actions[n].title, EntryFor(d, InUse(d, taken, planned), actions[n]));
        AccountPlanned(actions, preserved, planned, next);
        assert preserved + [] == preserved;
      } else {
        AccountPreserved(actions, preserved, planned);
        assert planned + [] == planned;
      }
    }
  }

  lemma {:induction false} PlanAvoidsInUse(d: Desktop, actions: seq<Action>, taken: set<string>, choices: seq<Choice>)
    requires |choices| == |actions|
    ensures var planned := PlannedOf(d, taken, actions, choices);
            Avoiding(d.normal, taken, InUse(d, taken, planned), planned)
    decreases |actions|
  {
    if actions != [] {
      var n := |actions| - 1;
      var before := PlannedOf(d, taken, actions[..n], choices[..n]);
      PlanAvoidsInUse(d, actions[..n], taken, choices[..n]);
      if choices[n].Use? {
        var next := Planned(choices[n].path, actions[n].title, EntryFor(d, InUse(d, taken, before), actions[n]));
        InUseOneMore(d, taken, before, next);
        AvoidOneMore(d.normal, taken, InUse(d, taken, before), before, next);
      }
    }
  }

  /** The default accelerator of an action is taken, by what was in use or by an entry planned before. */
  ghost predicate IsTaken(d: Desktop, taken: set<string>, planned: seq<Planned>, m: nat, flag: string)
    requires m <= |planned|
  {
    var accelerator := d.normal(d.defaultBinding(flag));
    accelerator in taken || exists k :: 0 <= k < m && d.normal(planned[k].entry.binding) == accelerator
  }

  /** Planned entry `m` is the action's: its label, its command, and its default accelerator unless that is
      taken. */
  ghost predicate IsEntryOf(d: Desktop, taken: set<string>, planned: seq<Planned>, m: nat, action: Action)
    requires m < |planned|
  {
    var e := planned[m].entry;
    && planned[m].title == action.title && e.name == "PenguinBurner: " + action.title
    && e.command == d.commandFor(action.flag)
    && e.binding == if IsTaken(d, taken, planned, m, action.flag) then "" else d.defaultBinding(action.flag)
  }

  lemma EntryForIsEntryOf(d: Desktop, taken: set<string>, before: seq<Planned>, path: string, action: Action)
    ensures IsEntryOf(d, taken, before + [Planned(path, action.title, EntryFor(d, InUse(d, taken, before), action))],
                      |before|, action)
    ensures Conflicts(d, InUse(d, taken, before), action.flag) <==> IsTaken(d, taken, before, |before|, action.flag)
  {
    var planned := before + [Planned(path, action.title, EntryFor(d, InUse(d, taken, before), action))];
    assert forall k | 0 <= k < |before| :: planned[k] == before[k];
  }

  /** What is planned: each entry is that of an action, and an action whose accelerator is taken is named as
      a conflict. */
  lemma {:induction false} PlannedEntriesAre(d: Desktop, actions: seq<Action>, taken: set<string>, choices: seq<Choice>,
                                             m: nat) returns (index: nat)
    requires |choices| == |actions| && m < |PlannedOf(d, taken, actions, choices)|
    ensures var planned := PlannedOf(d, taken, actions, choices);
      && index < |actions| && choices[index] == Use(planned[m].path)
      && IsEntryOf(d, taken, planned, m, actions[index])
      && (IsTaken(d, taken, planned, m, actions[index].flag) ==>
            actions[index].title in ConflictsOf(d, taken, actions, choices))
    decreases |actions|
  {
    var n := |actions| - 1;
    var before, planned := PlannedOf(d, taken, actions[..n], choices[..n]), PlannedOf(d, taken, actions, choices);
    assert forall k | 0 <= k < |before| :: planned[k] == before[k];
    if m < |before| {
      index := PlannedEntriesAre(d, actions[..n], taken, choices[..n], m);
    } else {
      index := n;
      EntryForIsEntryOf(d, taken, before, choices[n].path, actions[n]);
    }
  }

  /** And what is named as a conflict is a planned entry without an accelerator. */
  lemma {:induction false} ConflictsGoUnbound(d: Desktop, actions: seq<Action>, taken: set<string>,
                                              choices: seq<Choice>, title: string) returns (m: nat)
    requires |choices| == |actions| && title in ConflictsOf(d, taken, actions, choices)
    ensures var planned := PlannedOf(d, taken, actions, choices);
      m < |planned| && planned[m].title == title && planned[m].entry.binding == ""
    decreases |actions|
  {
    var n := |actions| - 1;
    var before := PlannedOf(d, taken, actions[..n], choices[..n]);
    if title in ConflictsOf(d, taken, actions[..n], choices[..n]) {
      m := ConflictsGoUnbound(d, actions[..n], taken, choices[..n], title);
    } else {
      m := |before|;
    }
  }

  /** Entry `m` of the plan was made for the action at `index`. */
  ghost predicate MadeFor(d: Desktop, actions: seq<Action>, choices: seq<Choice>, p: Planned, index: nat) {
    && index < |choices| <= |actions|
    && choices[index] == Use(p.path) && p.entry.command == d.commandFor(actions[index].flag)
  }

  predicate IsUse(choices: seq<Choice>, i: nat) {
    i < |choices| && choices[i].Use?
  }

  ghost predicate PlacedFor(d: Desktop, s: Store, actions: seq<Action>, choices: seq<Choice>, indices: seq<nat>,
                            planned: seq<Planned>)
  {
    && Placing(s, actions, |choices|, indices, planned)
    && (forall m | 0 <= m < |planned| :: MadeFor(d, actions, choices, planned[m], indices[m]))
    && (forall i: nat | IsUse(choices, i) :: i in indices)
  }

  lemma PlacedOneMore(d: Desktop, s: Store, actions: seq<Action>, choices: seq<Choice>, indices: seq<nat>,
                      planned: seq<Planned>, next: Planned)
    requires PathsApart(actions) && PlacedFor(d, s, actions, choices, indices, planned)
    requires MadeFor(d, actions, choices + [Use(next.path)], next, |choices|)
    requires TriedFor(actions, |choices|, next.path) && s.At(next.path) == EMPTY && next.path !in s.paths
    ensures PlacedFor(d, s, actions, choices + [Use(next.path)], indices + [|choices|], planned + [next])
  {
    PlaceOneMore(s, actions, |choices|, indices, planned, next);
    var more := indices + [|choices|];
    assert more[|indices|] == |choices|;
    forall i: nat | IsUse(choices + [Use(next.path)], i) ensures i in more {
      assert i < |choices| ==> IsUse(choices, i) && i in indices;
    }
    forall m | 0 <= m < |planned| + 1
      ensures MadeFor(d, actions, choices + [Use(next.path)], (planned + [next])[m], more[m])
    {
      if m < |planned| {
        assert MadeFor(d, actions, choices, planned[m], indices[m]);
      }
    }
  }

  lemma SkippedOneMore(d: Desktop, s: Store, actions: seq<Action>, choices: seq<Choice>, indices: seq<nat>,
                       planned: seq<Planned>)
    requires PlacedFor(d, s, actions, choices, indices, planned) && |choices| < |actions|
    ensures PlacedFor(d, s, actions, choices + [Preserve], indices, planned)
  {
    forall m | 0 <= m < |planned| ensures MadeFor(d, actions, choices + [Preserve], planned[m], indices[m]) {
      assert MadeFor(d, actions, choices, planned[m], indices[m]);
    }
    forall i: nat | IsUse(choices + [Preserve], i) ensures i in indices {
      assert IsUse(choices, i);
    }
  }

  lemma UsedIsFree(d: Desktop, s: Store, existing: set<string>, actions: seq<Action>, n: nat, c: Choice)
    requires n < |actions| && Served(d, s, existing, actions[n].flag, c) && c.Use?
    ensures TriedFor(actions, n, c.path) && s.At(c.path) == EMPTY && c.path !in s.paths
  {
    var m: nat :| DecidedBy(d, s, actions[n].flag, c, m);
  }

  lemma {:induction false} PlanIsPlaced(d: Desktop, s: Store, actions: seq<Action>, existing: set<string>,
                                        taken: set<string>, choices: seq<Choice>) returns (indices: seq<nat>)
    requires PathsApart(actions) && |choices| <= |actions|
    requires forall i | 0 <= i < |choices| :: Served(d, s, existing, actions[i].flag, choices[i])
    ensures PlacedFor(d, s, actions, choices, indices, PlannedOf(d, taken, actions[..|choices|], choices))
    decreases |choices|
  {
    if choices == [] {
      return [];
    }
    var n := |choices| - 1;
    indices := PlanIsPlaced(d, s, actions, existing, taken, choices[..n]);
    assert actions[..n + 1][..n] == actions[..n];
    var before := PlannedOf(d, taken, actions[..n], choices[..n]);
    assert Served(d, s, existing, actions[n].flag, choices[n]);
    assert choices == choices[..n] + [choices[n]];
    if choices[n].Use? {
      var next := Planned(choices[n].path, actions[n].title, EntryFor(d, InUse(d, taken, before), actions[n]));
      UsedIsFree(d, s, existing, actions, n, choices[n]);
      PlacedOneMore(d, s, actions, choices[..n], indices, before, next);
      indices := indices + [n];
    } else {
      SkippedOneMore(d, s, actions, choices[..n], indices, before);
    }
  }

  // ---------------------------------------------------------------------------
  // Writing, verifying, merging
  // ---------------------------------------------------------------------------

  function EntryWrites(p: Planned): seq<Write> {
    [Write(p.path, Name, p.entry.name), Write(p.path, Command, p.entry.command),
     Write(p.path, Binding, p.entry.binding)]
  }

  /** All the writes of a plan: write `i` is key `i % 3` of entry `i / 3`. */
  function PlanWrites(planned: seq<Planned>): seq<Write> {
    if planned == [] then []
    else PlanWrites(planned[..|planned| - 1]) + EntryWrites(planned[|planned| - 1])
  }

  lemma {:induction false} PlanWriteAt(planned: seq<Planned>, j: nat, k: nat)
    requires j < |planned| && k < 3
    ensures |PlanWrites(planned)| == 3 * |planned|
    ensures PlanWrites(planned)[3 * j + k] == EntryWrites(planned[j])[k]
    decreases |planned|
  {
    PlanWritesLength(planned);
    PlanWritesLength(planned[..|planned| - 1]);
    if j < |planned| - 1 {
      PlanWriteAt(planned[..|planned| - 1], j, k);
    }
  }

  lemma {:induction false} PlanWritesLength(planned: seq<Planned>)
    ensures |PlanWrites(planned)| == 3 * |planned|
    decreases |planned|
  {
    if planned != [] {
      PlanWritesLength(planned[..|planned| - 1]);
    }
  }

  lemma PlanWritesAreDistinct(s: Store, planned: seq<Planned>)
    requires PlanIsFresh(s, planned)
    ensures DistinctSlots(PlanWrites(planned))
    ensures forall i | 0 <= i < |PlanWrites(planned)| ::
      s.At(PlanWrites(planned)[i].path) == EMPTY && PlanWrites(planned)[i].path !in s.paths
  {
    var writes := PlanWrites(planned);
    PlanWritesLength(planned);
    forall i | 0 <= i < |writes|
      ensures i / 3 < |planned| && writes[i] == EntryWrites(planned[i / 3])[i % 3]
    {
      PlanWriteAt(planned, i / 3, i % 3);
    }
    forall i, j | 0 <= i < j < |writes|
      ensures writes[i].path != writes[j].path || writes[i].key != writes[j].key
    {
      if i / 3 == j / 3 {
        assert i % 3 < j % 3;
      } else {
        assert planned[i / 3].path != planned[j / 3].path;
      }
    }
  }

  /** `list(dict.fromkeys(...))` */
  function Dedup(paths: seq<string>): seq<string> {
    if paths == [] then []
    else
      var rest := Dedup(paths[..|paths| - 1]);
      if paths[|paths| - 1] in rest then rest else rest + [paths[|paths| - 1]]
  }

  /** What can be in the store when the try block is left by an error: the writes recorded so
      far have landed, except that the last one may have been dropped; and the path list is as
      before, or already carries the added paths. */
  ghost predicate Interrupted(before: Store, now: Store, planned: seq<Planned>, writes: seq<Write>,
                              added: seq<string>)
  {
    && writes <= PlanWrites(planned)
    && (SameEntries(now, Applied(before, writes)) || LastDropped(before, now, writes))
    && (now.paths == before.paths ||
        (SameEntries(now, Applied(before, writes)) && now.paths == Dedup(before.paths + added)))
    && (forall p | p in added :: Touches(writes, p))
    && added <= PathsOf(planned)
  }

  function PathsOf(planned: seq<Planned>): seq<string> {
    seq(|planned|, i requires 0 <= i < |planned| => planned[i].path)
  }

  ghost predicate LastDropped(before: Store, now: Store, writes: seq<Write>) {
    writes != [] && SameEntries(now, Applied(before, writes[..|writes| - 1]))
  }

  lemma AppliedOneMore(s: Store, writes: seq<Write>, w: Write)
    ensures Applied(s, writes + [w]) == Applied(s, writes).With(w)
  {
    assert (writes + [w])[..|writes|] == writes;
  }

  lemma PlanWritesUpTo(planned: seq<Planned>, j: nat)
    requires j < |planned|
    ensures PlanWrites(planned[..j + 1]) == PlanWrites(planned[..j]) + EntryWrites(planned[j])
  {
    assert planned[..j + 1][..j] == planned[..j];
  }

  lemma {:induction false} PlanWritesPrefix(planned: seq<Planned>, j: nat)
    requires j <= |planned|
    ensures PlanWrites(planned[..j]) <= PlanWrites(planned)
    decreases |planned| - j
  {
    if j == |planned| {
      assert planned[..j] == planned;
    } else {
      PlanWritesUpTo(planned, j);
      PlanWritesPrefix(planned, j + 1);
    }
  }

  lemma SameAfterWrite(s: Store, s': Store, w: Write)
    requires SameEntries(s, s')
    ensures SameEntries(s.With(w), s'.With(w))
  {
    assert s.At(w.path) == s'.At(w.path);
    forall p ensures s.With(w).At(p) == s'.With(w).At(p) {
      assert s.At(p) == s'.At(p);
    }
  }

  /** A write of the value already there changes nothing. */
  lemma SameWithoutWrite(s: Store, s': Store, w: Write)
    requires SameEntries(s, s') && s.At(w.path).Get(w.key) == w.value
    ensures SameEntries(s, s'.With(w))
  {
    assert s.At(w.path) == s'.At(w.path);
    forall p ensures s.At(p) == s'.With(w).At(p) {
      assert s.At(p) == s'.At(p);
    }
  }

  /** One key: set it, record the write, read it back. */
  method WriteKey(g: Gsettings, ghost before: Store, writes: seq<Write>, w: Write) returns (ok: bool, more: seq<Write>)
    requires SameEntries(g.store, Applied(before, writes))
    modifies g
    ensures g.calls >= old(g.calls) && g.store.paths == old(g.store.paths)
    ensures more == writes || more == writes + [w]
    ensures ok ==> more == writes + [w] && SameEntries(g.store, Applied(before, more))
    ensures SameEntries(g.store, Applied(before, more)) || LastDropped(before, g.store, more)
    ensures NoFault(g.fault, old(g.calls), g.calls, Dropped) ==> SameEntries(g.store, Applied(before, more))
    ensures AllWork(g.fault, old(g.calls), g.calls) ==> ok
    ensures g.fault(old(g.calls)).Works? && g.fault(old(g.calls) + 1).Works? ==>
      ok && g.calls == old(g.calls) + 2 && g.store == old(g.store).With(w)
    ensures g.fault(old(g.calls)).Dropped? && g.fault(old(g.calls) + 1).Works? ==>
      more == writes + [w] && g.calls == old(g.calls) + 2 && g.store == old(g.store)
  {
    more := writes;
    AppliedOneMore(before, writes, w);
    ghost var was := g.store;
    ok := g.Set(w);
    if ok {
      more := writes + [w];
      assert more[..|more| - 1] == writes;
      if g.fault(old(g.calls)).Works? {
        SameAfterWrite(was, Applied(before, writes), w);
      }
      var saved := g.Get(w.path, w.key);
      ok := saved == Some(w.value);
      if ok && g.fault(old(g.calls)).Dropped? {
        SameWithoutWrite(was, Applied(before, writes), w);
      }
    }
  }

  lemma KeysOneMore(start: seq<Write>, todo: seq<Write>, k: nat)
    requires k < |todo|
    ensures start + todo[..k] + [todo[k]] == start + todo[..k + 1]
  {
  }

  /** The three keys of one entry. */
  method WriteEntry(g: Gsettings, ghost before: Store, p: Planned, start: seq<Write>)
    returns (ok: bool, writes: seq<Write>)
    requires SameEntries(g.store, Applied(before, start))
    modifies g
    ensures g.calls >= old(g.calls) && g.store.paths == old(g.store.paths)
    ensures start <= writes <= start + EntryWrites(p)
    ensures ok ==> writes == start + EntryWrites(p) && SameEntries(g.store, Applied(before, writes))
    ensures SameEntries(g.store, Applied(before, writes)) || LastDropped(before, g.store, writes)
    ensures NoFault(g.fault, old(g.calls), g.calls, Dropped) ==> SameEntries(g.store, Applied(before, writes))
    ensures AllWork(g.fault, old(g.calls), g.calls) ==> ok
  {
    writes := start;
    ok := true;
    var todo := EntryWrites(p);
    var k := 0;
    ghost var done := 0;
    while k < 3 && ok
      invariant 0 <= done <= k <= 3 && (ok ==> done == k)
      invariant g.calls >= old(g.calls) && g.store.paths == old(g.store.paths)
      invariant writes == start + todo[..done]
      invariant ok ==> SameEntries(g.store, Applied(before, writes))
      invariant SameEntries(g.store, Applied(before, writes)) || LastDropped(before, g.store, writes)
      invariant NoFault(g.fault, old(g.calls), g.calls, Dropped) ==> SameEntries(g.store, Applied(before, writes))
      invariant AllWork(g.fault, old(g.calls), g.calls) ==> ok
      decreases 3 - k
    {
      KeysOneMore(start, todo, k);
      var more;
      ok, more := WriteKey(g, before, writes, todo[k]);
      done := if more == writes then done else k + 1;
      writes, k := more, k + 1;
    }
    assert todo[..3] == todo;
  }

  lemma TouchesLonger(start: seq<Write>, writes: seq<Write>, added: seq<string>)
    requires start <= writes && forall p | p in added :: Touches(start, p)
    ensures forall p | p in added :: Touches(writes, p)
  {
    forall p | p in added ensures Touches(writes, p) {
      assert Touches(start, p);
      var i :| 0 <= i < |start| && start[i].path == p;
      assert writes[i].path == p;
    }
  }

  /** The entry, unless somebody has taken its path meanwhile. */
  method WriteIfFree(g: Gsettings, ghost before: Store, p: Planned, start: seq<Write>)
    returns (ok: bool, writes: seq<Write>)
    requires SameEntries(g.store, Applied(before, start)) && Applied(before, start).At(p.path) == EMPTY
    modifies g
    ensures g.calls >= old(g.calls) && g.store.paths == old(g.store.paths)
    ensures start <= writes <= start + EntryWrites(p)
    ensures ok ==> writes == start + EntryWrites(p) && SameEntries(g.store, Applied(before, writes))
    ensures SameEntries(g.store, Applied(before, writes)) || LastDropped(before, g.store, writes)
    ensures NoFault(g.fault, old(g.calls), g.calls, Dropped) ==> SameEntries(g.store, Applied(before, writes))
    ensures AllWork(g.fault, old(g.calls), g.calls) ==> ok
  {
    var entry := g.ReadEntry(p.path);
    if entry != Some(EMPTY) {
      assert g.store.At(p.path) == Applied(before, start).At(p.path);
      return false, start;
    }
    ok, writes := WriteEntry(g, before, p, start);
  }

  /** Writing the entries before it leaves a planned path free. */
  lemma StillFree(before: Store, planned: seq<Planned>, j: nat)
    requires PlanIsFresh(before, planned) && j < |planned|
    ensures Applied(before, PlanWrites(planned[..j])).At(planned[j].path) == EMPTY
  {
    AppliedPlanElsewhere(before, planned[..j], planned[j].path);
  }

  lemma AddedAreTouched(planned: seq<Planned>, j: nat)
    requires j <= |planned|
    ensures forall p | p in PathsOf(planned)[..j] :: Touches(PlanWrites(planned[..j]), p)
  {
    var writes := PlanWrites(planned[..j]);
    forall p | p in PathsOf(planned)[..j] ensures Touches(writes, p) {
      var i :| 0 <= i < j && PathsOf(planned)[i] == p;
      PlanWriteAt(planned[..j], i, 0);
      assert writes[3 * i].path == p;
    }
  }

  /** Stopping within entry `j` leaves what the rollback expects. */
  lemma StopsWithin(before: Store, now: Store, planned: seq<Planned>, j: nat, writes: seq<Write>)
    requires j < |planned| && now.paths == before.paths
    requires PlanWrites(planned[..j]) <= writes <= PlanWrites(planned[..j]) + EntryWrites(planned[j])
    requires SameEntries(now, Applied(before, writes)) || LastDropped(before, now, writes)
    ensures Interrupted(before, now, planned, writes, PathsOf(planned)[..j])
  {
    PlanWritesUpTo(planned, j);
    PlanWritesPrefix(planned, j + 1);
    AddedAreTouched(planned, j);
    TouchesLonger(PlanWrites(planned[..j]), writes, PathsOf(planned)[..j]);
  }

  /** The writing half of the try block. */
  method WritePlan(g: Gsettings, planned: seq<Planned>) returns (ok: bool, writes: seq<Write>, added: seq<string>)
    requires PlanIsFresh(g.store, planned)
    modifies g
    ensures g.calls >= old(g.calls) && g.store.paths == old(g.store.paths)
    ensures Interrupted(old(g.store), g.store, planned, writes, added)
    ensures NoFault(g.fault, old(g.calls), g.calls, Dropped) ==> SameEntries(g.store, Applied(old(g.store), writes))
    ensures ok ==> writes == PlanWrites(planned) && added == PathsOf(planned)
                   && SameEntries(g.store, Applied(old(g.store), writes))
    ensures AllWork(g.fault, old(g.calls), g.calls) ==> ok
  {
    writes, added := [], [];
    ghost var before := g.store;
    for j := 0 to |planned|
      invariant g.calls >= old(g.calls) && g.store.paths == before.paths
      invariant writes == PlanWrites(planned[..j])
      invariant added == PathsOf(planned)[..j]
      invariant SameEntries(g.store, Applied(before, writes))
    {
      PlanWritesUpTo(planned, j);
      StillFree(before, planned, j);
      var written;
      written, writes := WriteIfFree(g, before, planned[j], writes);
      if !written {
        StopsWithin(before, g.store, planned, j, writes);
        return false, writes, added;
      }
      added := added + [planned[j].path];
    }
    assert planned[..|planned|] == planned;
    AddedAreTouched(planned, |planned|);
    return true, writes, added;
  }

  // ---------------------------------------------------------------------------
  // All or nothing
  // ---------------------------------------------------------------------------

  lemma {:induction false} AppliedOverEmpty(s: Store, writes: seq<Write>, path: string)
    ensures s.At(path) == EMPTY ==> Applied(s, writes).At(path) == Expected(writes).At(path)
    ensures !Touches(writes, path) ==> Applied(s, writes).At(path) == s.At(path)
    decreases |writes|
  {
    if writes != [] {
      var n := |writes| - 1;
      AppliedOverEmpty(s, writes[..n], path);
      assert Touches(writes[..n], path) ==> Touches(writes, path) by {
        TouchesPrefix(writes, n, path);
      }
      assert writes[n].path == path ==> Touches(writes, path);
    }
  }

  lemma TouchesPrefix(writes: seq<Write>, n: nat, path: string)
    requires n <= |writes|
    ensures Touches(writes[..n], path) ==> Touches(writes, path)
  {
    if Touches(writes[..n], path) {
      var i :| 0 <= i < n && writes[..n][i].path == path;
      assert writes[i].path == path;
    }
  }

  /** Entries that are all as written, emptied, are the entries there were before. */
  lemma EmptiedIsBefore(before: Store, now: Store, after: Store, planned: seq<Planned>,
                        writes: seq<Write>, added: seq<string>)
    requires PlanIsFresh(before, planned) && Interrupted(before, now, planned, writes, added)
    requires AllAsWritten(now, writes) && EntriesRolledBack(now, after, writes)
    ensures SameEntries(before, after)
  {
    PlanWritesAreDistinct(before, planned);
    forall p ensures before.At(p) == after.At(p) {
      AppliedOverEmpty(before, writes, p);
      if writes != [] {
        AppliedOverEmpty(before, writes[..|writes| - 1], p);
        TouchesPrefix(writes, |writes| - 1, p);
      }
      if Touches(writes, p) {
        var i :| 0 <= i < |writes| && writes[i].path == p;
        assert PlanWrites(planned)[i] == writes[i];
      }
    }
  }

  lemma {:induction false} DedupOfAppended(paths: seq<string>, added: seq<string>)
    requires NoRepeats(added) && forall p | p in added :: p !in paths
    ensures Dedup(paths + added) == Dedup(paths) + added
    ensures forall p :: p in Dedup(paths) <==> p in paths
    decreases |added|
  {
    DedupMembers(paths);
    if added == [] {
      assert paths + added == paths;
    } else {
      var n := |added| - 1;
      assert (paths + added)[..|paths| + n] == paths + added[..n];
      DedupOfAppended(paths, added[..n]);
      assert added[n] !in added[..n];
    }
  }

  lemma {:induction false} DedupMembers(paths: seq<string>)
    ensures forall p :: p in Dedup(paths) <==> p in paths
    ensures Dedup(paths) == paths <==> NoRepeats(paths)
    ensures |Dedup(paths)| <= |paths|
    decreases |paths|
  {
    if paths != [] {
      var n := |paths| - 1;
      var before, last := paths[..n], paths[n];
      DedupMembers(before);
      assert paths == before + [last];
      if last in before {
        var i :| 0 <= i < n && before[i] == last;
        assert paths[i] == paths[n];
      } else if NoRepeats(before) {
        forall i, j | 0 <= i < j < |paths| ensures paths[i] != paths[j] {
          assert j == n ==> paths[i] == before[i] && before[i] in before;
        }
      } else {
        assert Dedup(paths)[..|Dedup(before)|] == Dedup(before);
      }
    }
  }

  lemma {:induction false} WithoutAppended(paths: seq<string>, added: seq<string>, gone: set<string>)
    requires (forall p | p in paths :: p !in gone) && (forall p | p in added :: p in gone)
    ensures Without(paths + added, gone) == paths
    decreases |paths| + |added|
  {
    if added != [] {
      var n := |added| - 1;
      assert (paths + added)[..|paths| + n] == paths + added[..n];
      WithoutAppended(paths, added[..n], gone);
    } else if paths != [] {
      var n := |paths| - 1;
      assert (paths + added)[..n] == paths[..n] + [];
      WithoutAppended(paths[..n], [], gone);
    }
  }

  lemma AddedAreFresh(before: Store, planned: seq<Planned>, added: seq<string>)
    requires PlanIsFresh(before, planned) && added <= PathsOf(planned)
    ensures NoRepeats(added) && forall p | p in added :: p !in before.paths
  {
  }

  /** Removing the added paths gives the old list back, up to repetitions in it that the merge
      has dropped. */
  lemma PathsComeBack(before: Store, now: Store, planned: seq<Planned>, writes: seq<Write>, added: seq<string>)
    requires PlanIsFresh(before, planned) && Interrupted(before, now, planned, writes, added)
    ensures var paths := Without(now.paths, set p | p in added);
      && paths == (if now.paths == before.paths then before.paths else Dedup(before.paths))
      && (paths == before.paths <==> now.paths == before.paths || NoRepeats(before.paths))
  {
    AddedAreFresh(before, planned, added);
    var gone := set p | p in added;
    DedupOfAppended(before.paths, added);
    DedupMembers(before.paths);
    WithoutAppended(before.paths, [], gone);
    assert before.paths + [] == before.paths;
    WithoutAppended(Dedup(before.paths), added, gone);
  }

  /** The planned entries have names. */
  ghost predicate Named(planned: seq<Planned>) {
    forall m | 0 <= m < |planned| :: planned[m].entry.name != ""
  }

  /** A write that was reported but dropped strands its entry: the rollback does not recognise it and
      says so.  The entries are as before exactly when the name was dropped, which is the first key of
      an entry to be written; a dropped command or accelerator leaves the name behind. */
  lemma DroppedWriteStrandsEntry(before: Store, now: Store, after: Store, planned: seq<Planned>,
                                 writes: seq<Write>, added: seq<string>)
    requires PlanIsFresh(before, planned) && Named(planned) && Interrupted(before, now, planned, writes, added)
    requires LastDropped(before, now, writes) && writes[|writes| - 1].value != ""
    requires EntriesRolledBack(now, after, writes)
    ensures !AllAsWritten(now, writes)
    ensures SameEntries(before, after) <==> writes[|writes| - 1].key == Name
  {
    var n := |writes| - 1;
    var w, landed := writes[n], writes[..n];
    PlanWritesAreDistinct(before, planned);
    assert forall i | 0 <= i < |writes| :: writes[i] == PlanWrites(planned)[i];
    assert before.At(w.path) == EMPTY;
    AppliedOverEmpty(before, writes, w.path);
    AppliedOverEmpty(before, landed, w.path);
    UnwrittenSlotIsEmpty(landed, w.path, w.key);
    assert now.At(w.path) == Applied(before, landed).At(w.path);
    assert Expected(writes).At(w.path).Get(w.key) == w.value;
    assert !AsWritten(now, writes, w.path);
    assert Touches(writes, w.path);
    assert after.At(w.path) == now.At(w.path);
    forall p | p != w.path ensures before.At(p) == after.At(p) {
      OtherEntriesAreEmptied(before, now, planned, writes, p);
    }
    NameComesFirst(before, planned, writes);
  }

  /** Which key of which entry the last write is, and what was written before it. */
  lemma LastWriteIs(planned: seq<Planned>, writes: seq<Write>) returns (j: nat, k: nat)
    requires writes <= PlanWrites(planned) && writes != []
    ensures j < |planned| && k < 3 && writes[|writes| - 1] == EntryWrites(planned[j])[k]
    ensures writes[..|writes| - 1] == PlanWrites(planned[..j]) + EntryWrites(planned[j])[..k]
  {
    var n := |writes| - 1;
    PlanWritesLength(planned);
    j, k := n / 3, n % 3;
    PlanWriteAt(planned, j, k);
    PlanWritesLength(planned[..j]);
    PlanWritesUpTo(planned, j);
    PlanWritesPrefix(planned, j + 1);
    var start := PlanWrites(planned[..j]);
    assert |start| == 3 * j;
    assert start + EntryWrites(planned[j]) <= PlanWrites(planned);
    assert (start + EntryWrites(planned[j]))[..n] == start + EntryWrites(planned[j])[..k];
  }

  lemma AppliedPart(s: Store, start: seq<Write>, p: Planned, k: nat)
    requires k < 3 && Applied(s, start).At(p.path) == EMPTY
    ensures Applied(s, start + EntryWrites(p)[..k]).At(p.path)
         == Entry(if k > 0 then p.entry.name else "", if k > 1 then p.entry.command else "", "")
  {
    var w := EntryWrites(p);
    if k == 0 {
      assert start + w[..0] == start;
    } else {
      AppliedOneMore(s, start, w[0]);
      assert start + w[..1] == start + [w[0]];
      if k == 2 {
        AppliedOneMore(s, start + [w[0]], w[1]);
        assert start + w[..2] == start + [w[0]] + [w[1]];
      }
    }
  }

  /** When the last write is to the name of an entry, nothing of that entry landed before; otherwise its
      name did. */
  lemma NameComesFirst(before: Store, planned: seq<Planned>, writes: seq<Write>)
    requires PlanIsFresh(before, planned) && Named(planned) && writes <= PlanWrites(planned) && writes != []
    ensures var w := writes[|writes| - 1];
      Applied(before, writes[..|writes| - 1]).At(w.path) == EMPTY <==> w.key == Name
  {
    var j, k := LastWriteIs(planned, writes);
    StillFree(before, planned, j);
    AppliedPart(before, PlanWrites(planned[..j]), planned[j], k);
  }

  lemma NameAndCommandExpected(p: Planned)
    ensures var writes := EntryWrites(p)[..2];
      && Touches(writes, p.path) && (forall path | path != p.path :: !Touches(writes, path))
      && Expected(writes).At(p.path) == Entry(p.entry.name, p.entry.command, "")
  {
    var w := EntryWrites(p);
    assert w[..2] == [w[0]] + [w[1]];
    assert w[..2][0].path == p.path;
    var none := Store(map[], []);
    assert [] + [w[0]] == [w[0]];
    AppliedOneMore(none, [w[0]], w[1]);
    AppliedOneMore(none, [], w[0]);
  }

  /** The name of a new entry is saved, on a host whose third command will be dropped. */
  method SaveTheName(before: Store, p: Planned) returns (g: Gsettings, writes: seq<Write>)
    ensures fresh(g) && g.calls == 2 && forall m :: g.fault(m) == if m == 2 then Dropped else Works
    ensures writes == [EntryWrites(p)[0]]
    ensures g.store == before.With(EntryWrites(p)[0]) == Applied(before, writes)
  {
    g := new Gsettings(n => if n == 2 then Dropped else Works, before);
    var ok;
    ok, writes := WriteKey(g, before, [], EntryWrites(p)[0]);
    AppliedOneMore(before, [], EntryWrites(p)[0]);
  }

  /** The name of a new entry is saved, its command is reported saved and is not. */
  method DropTheCommand(before: Store, p: Planned) returns (g: Gsettings, writes: seq<Write>)
    ensures fresh(g) && writes == EntryWrites(p)[..2]
    ensures g.store == before.With(EntryWrites(p)[0]) && forall m | g.calls <= m :: g.fault(m).Works?
  {
    var todo, ok := EntryWrites(p), false;
    g, writes := SaveTheName(before, p);
    ok, writes := WriteKey(g, before, writes, todo[1]);
    assert writes == todo[..2];
  }

  /** A run in which that happens: the rollback leaves an entry with nothing but the name. */
  method StrandAnEntry(before: Store, p: Planned) returns (g: Gsettings, clean: bool)
    requires before.At(p.path) == EMPTY && p.entry.name != "" && p.entry.command != ""
    ensures fresh(g) && !clean && g.store.At(p.path) == Entry(p.entry.name, "", "")
    ensures forall path | path != p.path :: g.store.At(path) == before.At(path)
  {
    var writes;
    g, writes := DropTheCommand(before, p);
    ghost var now := g.store;
    NameAndCommandExpected(p);
    clean := Rollback(g, writes, []);
    assert !AsWritten(now, writes, p.path);
  }

  lemma OtherEntriesAreEmptied(before: Store, now: Store, planned: seq<Planned>, writes: seq<Write>, p: string)
    requires PlanIsFresh(before, planned) && writes <= PlanWrites(planned)
    requires LastDropped(before, now, writes) && p != writes[|writes| - 1].path
    ensures before.At(p) == if Touches(writes, p) && AsWritten(now, writes, p) then EMPTY else now.At(p)
  {
    var landed := writes[..|writes| - 1];
    AppliedOverEmpty(before, landed, p);
    AppliedOverEmpty(before, writes, p);
    assert now.At(p) == Applied(before, landed).At(p);
    if Touches(writes, p) {
      var i :| 0 <= i < |writes| && writes[i].path == p;
      PlanWritesAreDistinct(before, planned);
      assert PlanWrites(planned)[i].path == p;
    } else {
      TouchesPrefix(writes, |writes| - 1, p);
    }
  }

  // ---------------------------------------------------------------------------
  // setup_gnome_shortcuts
  // ---------------------------------------------------------------------------

  datatype Setup = Setup(success: bool, clean: bool, added: seq<string>, preserved: seq<string>,
                         conflicts: seq<string>)

  /** The entries of the active paths, read one after the other. */
  method ReadEntries(g: Gsettings, paths: seq<string>) returns (entries: Option<map<string, Entry>>)
    modifies g`calls
    ensures g.calls >= old(g.calls)
    ensures entries.Some? ==> entries.value.Keys == set p | p in paths
    ensures entries.Some? ==> forall p | p in paths :: entries.value[p] == g.store.At(p)
    ensures AllWork(g.fault, old(g.calls), g.calls) ==> entries.Some?
  {
    var read: map<string, Entry> := map[];
    for i := 0 to |paths|
      invariant g.calls >= old(g.calls)
      invariant read.Keys == set p | p in paths[..i]
      invariant forall p | p in read :: read[p] == g.store.At(p)
    {
      var entry := g.ReadEntry(paths[i]);
      if entry.None? {
        return None;
      }
      assert paths[..i + 1] == paths[..i] + [paths[i]];
      read := read[paths[i] := entry.value];
    }
    assert paths[..|paths|] == paths;
    return Some(read);
  }

  /** The `_writable` checks: the path list, then every key of every planned entry. */
  method CheckWritable(g: Gsettings, planned: seq<Planned>) returns (ok: bool)
    modifies g`calls
    ensures g.calls >= old(g.calls)
    ensures AllWork(g.fault, old(g.calls), g.calls) ==> ok
  {
    ok := true;
    if planned != [] {
      ok := g.Check();
    }
    var n := 0;
    while ok && n < 3 * |planned|
      invariant g.calls >= old(g.calls)
      invariant AllWork(g.fault, old(g.calls), g.calls) ==> ok
    {
      ok := g.Check();
      n := n + 1;
    }
  }

  /** Activate the added paths and look whether they are active. */
  method MergePaths(g: Gsettings, added: seq<string>) returns (ok: bool)
    requires added != [] ==> exists p :: p in added && p !in g.store.paths
    modifies g
    ensures g.calls >= old(g.calls) && g.store.entries == old(g.store.entries)
    ensures g.store.paths == old(g.store.paths) || g.store.paths == Dedup(old(g.store.paths) + added)
    ensures added == [] ==> g.store.paths == old(g.store.paths)
    ensures ok ==> g.store.paths == if added == [] then old(g.store.paths) else Dedup(old(g.store.paths) + added)
    ensures AllWork(g.fault, old(g.calls), g.calls) ==> ok
  {
    if added == [] {
      return true;
    }
    var current := g.ReadPaths();
    if current.None? {
      return false;
    }
    DedupMembers(current.value + added);
    ok := g.SetPaths(Dedup(current.value + added));
    if ok {
      var active := g.ReadPaths();
      ok := active.Some? && forall p | p in added :: p in active.value;
    }
  }

  lemma LandedIsAsWritten(before: Store, now: Store, planned: seq<Planned>, writes: seq<Write>)
    requires PlanIsFresh(before, planned) && writes <= PlanWrites(planned)
    requires SameEntries(now, Applied(before, writes))
    ensures AllAsWritten(now, writes)
  {
    PlanWritesAreDistinct(before, planned);
    forall p | Touches(writes, p) ensures AsWritten(now, writes, p) {
      var i :| 0 <= i < |writes| && writes[i].path == p;
      assert PlanWrites(planned)[i].path == p;
      AppliedOverEmpty(before, writes, p);
    }
  }

  lemma AppliedEntry(s: Store, writes: seq<Write>, p: Planned, path: string)
    ensures Applied(s, writes + EntryWrites(p)).At(path)
         == if path == p.path then p.entry else Applied(s, writes).At(path)
  {
    var w := EntryWrites(p);
    assert writes + w == ((writes + [w[0]]) + [w[1]]) + [w[2]];
    AppliedOneMore(s, writes, w[0]);
    AppliedOneMore(s, writes + [w[0]], w[1]);
    AppliedOneMore(s, writes + [w[0]] + [w[1]], w[2]);
  }

  lemma {:induction false} AppliedPlanElsewhere(s: Store, planned: seq<Planned>, path: string)
    requires forall i | 0 <= i < |planned| :: planned[i].path != path
    ensures Applied(s, PlanWrites(planned)).At(path) == s.At(path)
    decreases |planned|
  {
    if planned != [] {
      var n := |planned| - 1;
      AppliedPlanElsewhere(s, planned[..n], path);
      AppliedEntry(s, PlanWrites(planned[..n]), planned[n], path);
    }
  }

  lemma {:induction false} AppliedPlanAt(s: Store, planned: seq<Planned>, i: nat)
    requires i < |planned| && forall j | i < j < |planned| :: planned[i].path != planned[j].path
    ensures Applied(s, PlanWrites(planned)).At(planned[i].path) == planned[i].entry
    decreases |planned|
  {
    var n := |planned| - 1;
    if i < n {
      AppliedPlanAt(s, planned[..n], i);
    }
    AppliedEntry(s, PlanWrites(planned[..n]), planned[n], planned[i].path);
  }

  /** The store a successful setup leaves: the planned entries are there, every other entry is
      unchanged, and the list is the old one followed by the new paths. */
  ghost predicate IsSetUp(before: Store, after: Store, planned: seq<Planned>) {
    && (forall i | 0 <= i < |planned| :: after.At(planned[i].path) == planned[i].entry)
    && (forall p | p !in PathsOf(planned) :: after.At(p) == before.At(p))
    && after.paths == if planned == [] then before.paths else Dedup(before.paths) + PathsOf(planned)
  }

  lemma WrittenIsSetUp(before: Store, after: Store, planned: seq<Planned>)
    requires PlanIsFresh(before, planned)
    requires SameEntries(after, Applied(before, PlanWrites(planned)))
    requires after.paths == if planned == [] then before.paths else Dedup(before.paths + PathsOf(planned))
    ensures IsSetUp(before, after, planned)
    ensures NoRepeats(before.paths) ==> after.paths == before.paths + PathsOf(planned)
  {
    forall i | 0 <= i < |planned| ensures after.At(planned[i].path) == planned[i].entry {
      AppliedPlanAt(before, planned, i);
    }
    forall p | p !in PathsOf(planned) ensures after.At(p) == before.At(p) {
      assert forall i | 0 <= i < |planned| :: PathsOf(planned)[i] == planned[i].path;
      AppliedPlanElsewhere(before, planned, p);
    }
    AddedAreFresh(before, planned, PathsOf(planned));
    DedupOfAppended(before.paths, PathsOf(planned));
    DedupMembers(before.paths);
  }

  /** The try block after planning: `writes` and `added` are what the handler gets. */
  method Install(g: Gsettings, planned: seq<Planned>) returns (ok: bool, writes: seq<Write>, added: seq<string>)
    requires PlanIsFresh(g.store, planned)
    modifies g
    ensures g.calls >= old(g.calls)
    ensures Interrupted(old(g.store), g.store, planned, writes, added)
    ensures writes == [] ==> g.store.paths == old(g.store.paths)
    ensures NoFault(g.fault, old(g.calls), g.calls, Dropped) ==> SameEntries(g.store, Applied(old(g.store), writes))
    ensures ok ==> added == PathsOf(planned) && IsSetUp(old(g.store), g.store, planned)
    ensures AllWork(g.fault, old(g.calls), g.calls) ==> ok
  {
    ghost var before := g.store;
    ok := CheckWritable(g, planned);
    if !ok {
      return false, [], [];
    }
    ok, writes, added := WritePlan(g, planned);
    PlanWritesLength(planned);
    if ok {
      if planned != [] {
        assert added[0] == planned[0].path;
      }
      ok := MergePaths(g, added);
      if ok {
        WrittenIsSetUp(before, g.store, planned);
      }
    }
  }

  /** The except branch. */
  method Recover(g: Gsettings, ghost before: Store, ghost planned: seq<Planned>, writes: seq<Write>,
                 added: seq<string>) returns (clean: bool)
    requires PlanIsFresh(before, planned) && Interrupted(before, g.store, planned, writes, added)
    requires writes == [] ==> g.store.paths == before.paths
    modifies g
    ensures g.calls >= old(g.calls)
    ensures clean && NoFault(g.fault, old(g.calls), g.calls, Dropped) ==>
      && SameEntries(before, g.store)
      && (g.store.paths == before.paths || g.store.paths == Dedup(before.paths))
      && (NoRepeats(before.paths) ==> SameStore(before, g.store))
    ensures SameEntries(old(g.store), Applied(before, writes))
            && NoFault(g.fault, old(g.calls), g.calls, Dropped) && NoFault(g.fault, old(g.calls), g.calls, Fails)
            ==> clean
  {
    if writes == [] {
      return true;
    }
    ghost var now := g.store;
    PlanWritesAreDistinct(before, planned);
    assert DistinctSlots(writes) by {
      assert forall i | 0 <= i < |writes| :: writes[i] == PlanWrites(planned)[i];
    }
    clean := Rollback(g, writes, added);
    if SameEntries(now, Applied(before, writes)) {
      LandedIsAsWritten(before, now, planned, writes);
    }
    PathsComeBack(before, now, planned, writes, added);
    if AllAsWritten(now, writes) && EntriesRolledBack(now, g.store, writes) {
      EmptiedIsBefore(before, now, g.store, planned, writes, added);
    }
  }

  /** The actions that the active entries run. */
  ghost function ActiveActions(d: Desktop, s: Store): set<string> {
    set p | p in s.paths && d.actionOf(s.At(p).command).Some? :: d.actionOf(s.At(p).command).value
  }

  /** Some entry runs the action. */
  ghost predicate IsRun(d: Desktop, s: Store, flag: string) {
    exists p :: Runs(d, s, p, flag)
  }

  ghost predicate AllServed(d: Desktop, s: Store, actions: seq<Action>, choices: seq<Choice>) {
    && |choices| == |actions|
    && forall i | 0 <= i < |actions| :: Served(d, s, ActiveActions(d, s), actions[i].flag, choices[i])
  }

  lemma UnplannedStaysRun(d: Desktop, before: Store, after: Store, planned: seq<Planned>, p: string, flag: string)
    requires IsSetUp(before, after, planned) && forall m | 0 <= m < |planned| :: planned[m].path != p
    requires Runs(d, before, p, flag)
    ensures IsRun(d, after, flag)
  {
    assert p !in PathsOf(planned);
    assert Runs(d, after, p, flag);
  }

  lemma ActiveStaysRun(d: Desktop, before: Store, after: Store, planned: seq<Planned>, flag: string)
    requires PlanIsFresh(before, planned) && IsSetUp(before, after, planned) && flag in ActiveActions(d, before)
    ensures IsRun(d, after, flag)
  {
    var p :| p in before.paths && d.actionOf(before.At(p).command).Some? &&
      d.actionOf(before.At(p).command).value == flag;
    UnplannedStaysRun(d, before, after, planned, p, flag);
  }

  lemma PreservedStaysRun(d: Desktop, before: Store, after: Store, actions: seq<Action>, choices: seq<Choice>,
                          indices: seq<nat>, planned: seq<Planned>, i: nat, n: nat)
    requires PathsApart(actions) && i < |choices| && PlacedFor(d, before, actions, choices, indices, planned)
    requires IsSetUp(before, after, planned) && |choices| == |actions|
    requires choices[i].Preserve? && Runs(d, before, CandidatePath(actions[i].flag, n), actions[i].flag)
    ensures IsRun(d, after, actions[i].flag)
  {
    var p := CandidatePath(actions[i].flag, n);
    assert TriedFor(actions, i, p);
    forall m | 0 <= m < |planned| ensures planned[m].path != p {
      assert MadeFor(d, actions, choices, planned[m], indices[m]) && TriedFor(actions, indices[m], planned[m].path);
      if indices[m] < i {
        TriedPathsDiffer(actions, indices[m], planned[m].path, i, p);
      } else if i < indices[m] {
        TriedPathsDiffer(actions, i, p, indices[m], planned[m].path);
      }
    }
    UnplannedStaysRun(d, before, after, planned, p, actions[i].flag);
  }

  lemma AddedIsRun(d: Desktop, before: Store, after: Store, actions: seq<Action>, choices: seq<Choice>,
                   indices: seq<nat>, planned: seq<Planned>, i: nat)
    requires i < |choices| && PlacedFor(d, before, actions, choices, indices, planned) && |choices| == |actions|
    requires IsSetUp(before, after, planned) && choices[i].Use?
    requires d.actionOf(d.commandFor(actions[i].flag)) == Some(actions[i].flag)
    ensures choices[i].path in after.paths && Runs(d, after, choices[i].path, actions[i].flag)
  {
    assert IsUse(choices, i) && i in indices;
    var m :| 0 <= m < |indices| && indices[m] == i;
    assert MadeFor(d, actions, choices, planned[m], i);
    assert PathsOf(planned)[m] == planned[m].path;
  }

  /** Where an action is run after the setup: at an entry that ran it before, or at a new, active one. */
  lemma EveryActionIsRun(d: Desktop, before: Store, after: Store, actions: seq<Action>, taken: set<string>,
                         choices: seq<Choice>, i: nat)
    requires PathsApart(actions) && AllServed(d, before, actions, choices) && i < |actions|
    requires IsSetUp(before, after, PlannedOf(d, taken, actions, choices))
    requires d.actionOf(d.commandFor(actions[i].flag)) == Some(actions[i].flag)
    ensures IsRun(d, after, actions[i].flag)
    ensures choices[i].Use? ==> choices[i].path in after.paths && Runs(d, after, choices[i].path, actions[i].flag)
  {
    var flag, planned := actions[i].flag, PlannedOf(d, taken, actions, choices);
    assert actions[..|actions|] == actions;
    var indices := PlanIsPlaced(d, before, actions, ActiveActions(d, before), taken, choices);
    assert Served(d, before, ActiveActions(d, before), flag, choices[i]);
    if flag in ActiveActions(d, before) {
      ActiveStaysRun(d, before, after, planned, flag);
    } else {
      var n: nat :| DecidedBy(d, before, flag, choices[i], n);
      if choices[i].Use? {
        AddedIsRun(d, before, after, actions, choices, indices, planned, i);
      } else {
        PreservedStaysRun(d, before, after, actions, choices, indices, planned, i, n);
      }
    }
  }

  /** A successful setup: the plan is the one the store calls for, its entries are there, and nothing
      else changed. */
  ghost predicate Succeeded(d: Desktop, actions: seq<Action>, taken: set<string>, before: Store, after: Store,
                            choices: seq<Choice>, r: Setup)
  {
    && AllServed(d, before, actions, choices)
    && (var planned := PlannedOf(d, taken, actions, choices);
        && IsSetUp(before, after, planned)
        && r.added == TitlesOf(planned))
    && r.preserved == PreservedOf(actions, choices) && r.conflicts == ConflictsOf(d, taken, actions, choices)
  }

  /** What success means: new entries at unused paths and on accelerators nobody had, every action
      preserved or added exactly once, and every action run by some entry. */
  lemma SuccessServesEveryAction(d: Desktop, actions: seq<Action>, taken: set<string>, before: Store, after: Store,
                                 choices: seq<Choice>, r: Setup)
    requires PathsApart(actions) && Succeeded(d, actions, taken, before, after, choices, r)
    requires forall i | 0 <= i < |actions| :: d.actionOf(d.commandFor(actions[i].flag)) == Some(actions[i].flag)
    ensures PlanIsFresh(before, PlannedOf(d, taken, actions, choices))
    ensures PlanAvoids(d.normal, taken, PlannedOf(d, taken, actions, choices))
    ensures multiset(r.preserved) + multiset(r.added) == multiset(ActionTitles(actions))
    ensures forall i | 0 <= i < |actions| :: IsRun(d, after, actions[i].flag)
  {
    assert actions[..|actions|] == actions;
    var indices := PlanIsPlaced(d, before, actions, ActiveActions(d, before), taken, choices);
    assert forall i | 0 <= i < |actions| :: Served(d, before, ActiveActions(d, before), actions[i].flag, choices[i]);
    PlanAccounts(d, actions, taken, choices);
    PlanAvoidsInUse(d, actions, taken, choices);
    forall i | 0 <= i < |actions| ensures IsRun(d, after, actions[i].flag) {
      EveryActionIsRun(d, before, after, actions, taken, choices, i);
    }
  }

  /** Reading what is there: the actions that are run, and the accelerators in use. */
  method Survey(g: Gsettings, d: Desktop, others: Option<set<string>>)
    returns (ok: bool, existing: set<string>, taken: set<string>)
    modifies g`calls
    ensures g.calls >= old(g.calls)
    ensures ok ==>
      && others.Some?
      && existing == ActiveActions(d, g.store) && taken == OccupiedBy(d.normal, g.store) + others.value
    ensures AllWork(g.fault, old(g.calls), g.calls) ==> (ok <==> others.Some?)
  {
    var paths := g.ReadPaths();
    if others.None? || paths.None? {
      return false, {}, {};
    }
    var entries := ReadEntries(g, paths.value);
    if entries.None? {
      return false, {}, {};
    }
    existing := set p | p in entries.value && d.actionOf(entries.value[p].command).Some? ::
      d.actionOf(entries.value[p].command).value;
    taken := (set p | p in entries.value && entries.value[p].binding != "" ::
      d.normal(entries.value[p].binding)) + others.value;
    assert taken == OccupiedBy(d.normal, g.store) + others.value;
    assert existing == ActiveActions(d, g.store);
    return true, existing, taken;
  }

  lemma PlanIsFollowed(d: Desktop, s: Store, actions: seq<Action>, taken: set<string>, choices: seq<Choice>, plan: Plan)
    requires PathsApart(actions) && |choices| == |actions|
    requires Planning(d, s, actions, ActiveActions(d, s), taken, choices, plan)
    ensures AllServed(d, s, actions, choices) && PlanIsFresh(s, plan.planned)
    ensures plan.planned == PlannedOf(d, taken, actions, choices)
    ensures plan.preserved == PreservedOf(actions, choices) && plan.conflicts == ConflictsOf(d, taken, actions, choices)
  {
    assert actions[..|actions|] == actions;
    var indices := PlanIsPlaced(d, s, actions, ActiveActions(d, s), taken, choices);
  }

  /** `setup_gnome_shortcuts` on a GNOME session.  `others` holds the accelerators of the other
      schemas in normal form, or nothing when they could not be read.  Either the setup succeeds,
      and every action is preserved or added as the store calls for; or, when it says the rollback was
      clean, the store is as it was.  When every command works, it succeeds exactly when each action
      is there already or has room. */
  method SetupGnomeShortcuts(g: Gsettings, d: Desktop, actions: seq<Action>, others: Option<set<string>>)
    returns (r: Setup, ghost choices: seq<Choice>, ghost failedAt: nat)
    requires PathsApart(actions)
    modifies g
    ensures old(g.calls) <= failedAt <= g.calls
    ensures r.success ==>
      && others.Some?
      && Succeeded(d, actions, OccupiedBy(d.normal, old(g.store)) + others.value, old(g.store), g.store, choices, r)
    ensures AllWork(g.fault, old(g.calls), g.calls) ==>
      (r.success <==> others.Some? && forall i | 0 <= i < |actions| ::
         actions[i].flag in ActiveActions(d, old(g.store)) || HasRoom(d, old(g.store), actions[i].flag))
    ensures !r.success && r.clean && NoFault(g.fault, failedAt, g.calls, Dropped) ==>
      && SameEntries(old(g.store), g.store)
      && (NoRepeats(old(g.store).paths) ==> SameStore(old(g.store), g.store))
    ensures !r.success && NoFault(g.fault, old(g.calls), g.calls, Dropped)
            && NoFault(g.fault, failedAt, g.calls, Fails)
            ==> r.clean
  {
    ghost var before := g.store;
    choices := [];
    var failure := Setup(false, true, [], [], []);
    var read, existing, taken := Survey(g, d, others);
    if !read {
      return failure, choices, g.calls;
    }
    var plan;
    plan, choices := MakePlan(g, d, actions, existing, taken);
    if !plan.ok {
      return failure, choices, g.calls;
    }
    PlanIsFollowed(d, before, actions, taken, choices, plan);
    var ok, writes, added := Install(g, plan.planned);
    failedAt := g.calls;
    if !ok {
      var clean := Recover(g, before, plan.planned, writes, added);
      return failure.(clean := clean), choices, failedAt;
    }
    return Setup(true, true, TitlesOf(plan.planned), plan.preserved, plan.conflicts), choices, failedAt;
  }
}
