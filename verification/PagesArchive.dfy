/** Packing and extracting the Pages snapshot (scripts/flatpak_pages_artifact.py). */
module PagesArchive {
  import opened Wrappers

  const MAX_ARCHIVE_ENTRIES := 100000
  const MAX_UNPACKED_SIZE := 2147483648

  type Path = seq<string>
  type Content = seq<int>

  // ---------------------------------------------------------------------------
  // Names
  // ---------------------------------------------------------------------------

  /** `name.split("/")` */
  function Parts(name: string): (parts: Path)
    ensures parts != []
  {
    if name == [] then [""]
    else
      var rest := Parts(name[1..]);
      if name[0] == '/' then [""] + rest else [[name[0]] + rest[0]] + rest[1..]
  }

  /** `path.as_posix()` of a relative path. */
  function NameOf(path: Path): string {
    if path == [] then [] else if |path| == 1 then path[0] else path[0] + ("/" + NameOf(path[1..]))
  }

  predicate IsSafePart(part: string) {
    part != "" && part != "." && part != ".."
  }

  predicate AllSafe(path: Path) {
    forall k | 0 <= k < |path| :: IsSafePart(path[k])
  }

  /** `_safe_member_path`: none for a name that is refused. */
  function SafePath(name: string): (path: Option<Path>)
    ensures path.Some? ==> path.value != [] && AllSafe(path.value) && '\\' !in name
  {
    var parts := Parts(name);
    if name == "" || '\\' in name || "/" <= name || !AllSafe(parts) then None else Some(parts)
  }

  predicate NoSlash(part: string) {
    '/' !in part
  }

  lemma {:induction false} PartsOfOne(part: string)
    requires NoSlash(part)
    ensures Parts(part) == [part]
  {
    if part != [] {
      assert part[0] in part && forall c | c in part[1..] :: c in part;
      PartsOfOne(part[1..]);
      assert [part[0]] + part[1..] == part;
    }
  }

  lemma {:induction false} PartsOfTwo(part: string, rest: string)
    requires NoSlash(part)
    ensures Parts(part + ("/" + rest)) == [part] + Parts(rest)
  {
    var name := part + ("/" + rest);
    if part == [] {
      assert name == "/" + rest && name[1..] == rest;
    } else {
      assert part[0] in part && forall c | c in part[1..] :: c in part;
      assert name[1..] == part[1..] + ("/" + rest);
      PartsOfTwo(part[1..], rest);
      assert [part[0]] + part[1..] == part;
    }
  }

  /** The parts of a path are found again in its name. */
  lemma {:induction false} PartsOfName(path: Path)
    requires path != [] && forall k | 0 <= k < |path| :: NoSlash(path[k])
    ensures Parts(NameOf(path)) == path
  {
    if |path| == 1 {
      PartsOfOne(path[0]);
    } else {
      PartsOfTwo(path[0], NameOf(path[1..]));
      PartsOfName(path[1..]);
    }
  }

  predicate HasBackslash(path: Path) {
    exists k :: 0 <= k < |path| && '\\' in path[k]
  }

  lemma {:induction false} BackslashInName(path: Path)
    ensures '\\' in NameOf(path) <==> HasBackslash(path)
  {
    if |path| > 1 {
      BackslashInName(path[1..]);
      assert forall c :: c in NameOf(path) <==> c in path[0] || c == '/' || c in NameOf(path[1..]);
      assert forall k | 1 <= k < |path| :: path[k] == path[1..][k - 1];
      if HasBackslash(path[1..]) {
        var k :| 0 <= k < |path[1..]| && '\\' in path[1..][k];
        assert '\\' in path[k + 1];
      }
    }
  }

  /** A part that would be skipped or lead up. */
  ghost predicate HasUnsafePart(path: Path) {
    "" in path || "." in path || ".." in path
  }

  /** A path is read back from its name unless it has a backslash, or a part that is empty, "." or "..":
      then its name is refused. */
  lemma NameReadsBack(path: Path)
    requires path != [] && forall k | 0 <= k < |path| :: NoSlash(path[k])
    ensures SafePath(NameOf(path)) == if HasBackslash(path) || HasUnsafePart(path) then None else Some(path)
  {
    PartsOfName(path);
    BackslashInName(path);
    assert AllSafe(path) <==> !HasUnsafePart(path);
    if path[0] != "" {
      assert path[0][0] in path[0];
      assert NameOf(path)[0] == path[0][0] != '/';
    }
  }

  // ---------------------------------------------------------------------------
  // Members and trees
  // ---------------------------------------------------------------------------

  datatype Kind = Directory | Regular | Other

  /** An entry of an archive as it is read: a directory's name comes without the final slash. */
  datatype Member = Member(name: string, kind: Kind, size: int, content: Content) {
    function Path(): Option<Path> {
      SafePath(name)
    }
  }

  datatype Node = Folder | File(content: Content)

  /** What is below a directory, the directory itself at the empty path. */
  type Tree = map<Path, Node>

  /** A tree as a file system has it: every entry lies in a folder, under a proper name. */
  ghost predicate IsTree(t: Tree) {
    && [] in t && t[[]].Folder?
    && forall p | p in t && p != [] ::
         && AllSafe(p) && (forall k | 0 <= k < |p| :: NoSlash(p[k]))
         && p[..|p| - 1] in t && t[p[..|p| - 1]].Folder?
  }

  function UnpackedSize(members: seq<Member>): int {
    if members == [] then 0
    else UnpackedSize(members[..|members| - 1]) +
         (if members[|members| - 1].kind.Regular? then members[|members| - 1].size else 0)
  }

  /** Only files count, each with its size. */
  lemma {:induction false} SizesTogether(a: seq<Member>, b: seq<Member>)
    ensures UnpackedSize(a + b) == UnpackedSize(a) + UnpackedSize(b)
    ensures |a| == 1 ==> UnpackedSize(a) == if a[0].kind == Regular then a[0].size else 0
    decreases |b|
  {
    if b == [] {
      assert a + b == a;
    } else {
      assert (a + b)[..|a + b| - 1] == a + b[..|b| - 1];
      SizesTogether(a, b[..|b| - 1]);
    }
  }

  predicate IsEntry(m: Member) {
    m.Path().Some? && !m.kind.Other? && (m.kind.Regular? ==> m.size >= 0)
  }

  /** No two members have the same path, and none lies below a file. */
  ghost predicate NoClash(members: seq<Member>) {
    && (forall i, j | 0 <= i < j < |members| :: members[i].Path() != members[j].Path())
    && (forall i, j | 0 <= i < |members| && 0 <= j < |members| :: !LiesBelowFile(members[i], members[j]))
  }

  /** `m` would lie below the file `f`. */
  predicate LiesBelowFile(m: Member, f: Member) {
    m.Path().Some? && f.Path().Some? && !f.kind.Directory? && f.Path().value < m.Path().value
  }

  ghost predicate Acceptable(members: seq<Member>) {
    && |members| <= 100000
    && (forall i | 0 <= i < |members| :: IsEntry(members[i]))
    && NoClash(members)
    && UnpackedSize(members) <= 2147483648
  }

  datatype Refusal = Fine | TooManyEntries | UnsafePath | UnsupportedType | DuplicatePath | NegativeSize | TooLarge
                   | NonDirectoryParent

  lemma {:induction false} SizesAdd(members: seq<Member>, n: nat)
    requires n <= |members| && forall i | 0 <= i < |members| :: IsEntry(members[i])
    ensures UnpackedSize(members[..n]) <= UnpackedSize(members)
    decreases |members|
  {
    if n < |members| {
      SizesAdd(members[..|members| - 1], n);
      assert members[..|members| - 1][..n] == members[..n];
    } else {
      assert members[..n] == members;
    }
  }

  /** The paths seen so far, as the dictionary of `_validated_members` holds them. */
  ghost predicate Seen(members: seq<Member>, paths: map<Path, Member>) {
    && (forall i | 0 <= i < |members| :: IsEntry(members[i]))
    && (forall i | 0 <= i < |members| ::
      members[i].Path().value in paths && paths[members[i].Path().value] == members[i])
    && (forall p | p in paths :: paths[p] in members && paths[p].Path() == Some(p))
    && (forall i, j | 0 <= i < j < |members| :: members[i].Path() != members[j].Path())
  }

  function SizeOf(m: Member): int {
    if m.kind.Regular? then m.size else 0
  }

  /** One round of the first loop. */
  method CheckMember(m: Member, paths: map<Path, Member>, total: int) returns (refusal: Refusal, total': int)
    ensures refusal.Fine? <==>
      IsEntry(m) && m.Path().value !in paths && (m.kind.Regular? ==> total + m.size <= MAX_UNPACKED_SIZE)
    ensures refusal.Fine? ==> total' == total + SizeOf(m)
    ensures refusal.UnsafePath? <==> m.Path().None?
    ensures refusal.DuplicatePath? ==> m.Path().Some? && m.Path().value in paths
    ensures refusal.TooLarge? ==> IsEntry(m) && m.kind.Regular? && total + m.size > MAX_UNPACKED_SIZE
    ensures refusal.UnsupportedType? || refusal.NegativeSize? ==> !IsEntry(m)
    ensures !refusal.TooManyEntries? && !refusal.NonDirectoryParent?
  {
    total' := total;
    var path := m.Path();
    if path.None? {
      return UnsafePath, total;
    }
    if m.kind.Other? {
      return UnsupportedType, total;
    }
    if path.value in paths {
      return DuplicatePath, total;
    }
    if m.kind.Regular? {
      if m.size < 0 {
        return NegativeSize, total;
      }
      total' := total + m.size;
      if total' > MAX_UNPACKED_SIZE {
        return TooLarge, total';
      }
    }
    return Fine, total';
  }

  /** One round of the first loop, after `i` members. */
  method CheckNext(members: seq<Member>, i: nat, paths: map<Path, Member>, total: int)
    returns (refusal: Refusal, paths': map<Path, Member>, total': int)
    requires i < |members| && Seen(members[..i], paths) && total == UnpackedSize(members[..i]) <= MAX_UNPACKED_SIZE
    ensures refusal.Fine? ==>
      Seen(members[..i + 1], paths') && total' == UnpackedSize(members[..i + 1]) <= MAX_UNPACKED_SIZE
    ensures !refusal.Fine? ==> !Acceptable(members) && !refusal.TooManyEntries?
    ensures refusal.UnsafePath? ==> members[i].Path().None?
  {
    paths' := paths;
    refusal, total' := CheckMember(members[i], paths, total);
    if !refusal.Fine? {
      Refused(members, i, paths, total, refusal);
      return;
    }
    NextIsSeen(members, i, paths, total);
    paths' := paths[members[i].Path().value := members[i]];
  }

  lemma NextIsSeen(members: seq<Member>, i: nat, paths: map<Path, Member>, total: int)
    requires i < |members| && Seen(members[..i], paths) && total == UnpackedSize(members[..i])
    requires IsEntry(members[i]) && members[i].Path().value !in paths
    ensures Seen(members[..i + 1], paths[members[i].Path().value := members[i]])
    ensures UnpackedSize(members[..i + 1]) == total + SizeOf(members[i])
  {
    assert members[..i + 1] == members[..i] + [members[i]];
    SizeOneMore(members[..i], members[i]);
    SeenOneMore(members[..i], paths, members[i]);
  }

  /** The first loop: each member by itself, and no path twice. */
  method CheckMembers(members: seq<Member>) returns (refusal: Refusal, paths: map<Path, Member>)
    requires |members| <= MAX_ARCHIVE_ENTRIES
    ensures refusal.Fine? ==> Seen(members, paths) && UnpackedSize(members) <= MAX_UNPACKED_SIZE
    ensures !refusal.Fine? ==> !Acceptable(members) && !refusal.TooManyEntries?
    ensures refusal.UnsafePath? ==> exists i :: 0 <= i < |members| && members[i].Path().None?
  {
    paths := map[];
    var total := 0;
    for i := 0 to |members|
      invariant Seen(members[..i], paths) && total == UnpackedSize(members[..i]) <= MAX_UNPACKED_SIZE
    {
      refusal, paths, total := CheckNext(members, i, paths, total);
      if !refusal.Fine? {
        return;
      }
    }
    assert members[..|members|] == members;
    return Fine, paths;
  }

  lemma SizeOneMore(members: seq<Member>, m: Member)
    ensures UnpackedSize(members + [m]) == UnpackedSize(members) + SizeOf(m)
  {
    assert (members + [m])[..|members|] == members;
  }

  lemma Refused(members: seq<Member>, i: nat, paths: map<Path, Member>, total: int, refusal: Refusal)
    requires i < |members| && Seen(members[..i], paths) && total == UnpackedSize(members[..i])
    requires refusal.UnsafePath? || refusal.UnsupportedType? || refusal.NegativeSize? ==> !IsEntry(members[i])
    requires refusal.DuplicatePath? ==> members[i].Path().Some? && members[i].Path().value in paths
    requires refusal.TooLarge? ==> IsEntry(members[i]) && total + SizeOf(members[i]) > MAX_UNPACKED_SIZE
    requires refusal.UnsafePath? || refusal.UnsupportedType? || refusal.NegativeSize? || refusal.DuplicatePath? ||
      refusal.TooLarge?
    ensures !Acceptable(members)
  {
    if refusal.DuplicatePath? {
      Duplicate(members, i, paths);
    } else if refusal.TooLarge? {
      TooLargeForAll(members, i);
    } else {
      assert !IsEntry(members[i]);
    }
  }

  lemma TooLargeForAll(members: seq<Member>, i: nat)
    requires i < |members| && UnpackedSize(members[..i]) + SizeOf(members[i]) > MAX_UNPACKED_SIZE
    ensures (forall k | 0 <= k < |members| :: IsEntry(members[k])) ==> UnpackedSize(members) > MAX_UNPACKED_SIZE
  {
    SizeOneMore(members[..i], members[i]);
    assert members[..i + 1] == members[..i] + [members[i]];
    if forall k | 0 <= k < |members| :: IsEntry(members[k]) {
      SizesAdd(members, i + 1);
    }
  }

  lemma Duplicate(members: seq<Member>, i: nat, paths: map<Path, Member>)
    requires i < |members| && Seen(members[..i], paths)
    requires members[i].Path().Some? && members[i].Path().value in paths
    ensures !NoClash(members)
  {
    var other := paths[members[i].Path().value];
    var k :| 0 <= k < i && members[..i][k] == other;
    assert members[k].Path() == members[i].Path();
  }

  lemma SeenOneMore(members: seq<Member>, paths: map<Path, Member>, m: Member)
    requires Seen(members, paths) && IsEntry(m) && m.Path().value !in paths
    ensures Seen(members + [m], paths[m.Path().value := m])
  {
    var more := members + [m];
    assert forall k | 0 <= k < |members| :: more[k] == members[k] && members[k].Path().value in paths;
  }

  /** The second loop, for one member: its parents, nearest first. */
  method ParentsAreFolders(path: Path, paths: map<Path, Member>) returns (ok: bool)
    ensures ok <==> forall n | 0 < n < |path| && path[..n] in paths :: paths[path[..n]].kind.Directory?
  {
    var n := |path| - 1;
    while n > 0
      invariant -1 <= n <= |path| - 1
      invariant forall k | n < k < |path| && path[..k] in paths :: paths[path[..k]].kind.Directory?
    {
      var parent := path[..n];
      if parent in paths && !paths[parent].kind.Directory? {
        return false;
      }
      n := n - 1;
    }
    return true;
  }

  /** The second loop. */
  method CheckParents(members: seq<Member>, paths: map<Path, Member>) returns (ok: bool)
    requires Seen(members, paths)
    ensures ok <==> NoClash(members)
  {
    for i := 0 to |members|
      invariant forall k, j | 0 <= k < i && 0 <= j < |members| :: !LiesBelowFile(members[k], members[j])
    {
      assert members[i].Path().Some?;
      ok := ParentsAreFolders(members[i].Path().value, paths);
      if !ok {
        BelowAFile(members, paths, i);
        return;
      }
      BelowNoFile(members, paths, i);
    }
    return true;
  }

  /** `_validated_members` */
  method ValidatedMembers(members: seq<Member>) returns (refusal: Refusal)
    ensures refusal.Fine? <==> Acceptable(members)
    ensures refusal.Fine? ==> forall m | m in members ::
      (m.kind == Directory || m.kind == Regular) && (m.kind == Regular ==> m.size >= 0)
    ensures refusal.TooManyEntries? <==> |members| > 100000
    ensures refusal.UnsafePath? ==> exists i :: 0 <= i < |members| && members[i].Path().None?
  {
    if |members| > MAX_ARCHIVE_ENTRIES {
      return TooManyEntries;
    }
    var paths;
    refusal, paths := CheckMembers(members);
    if refusal.Fine? {
      var ok := CheckParents(members, paths);
      if !ok {
        return NonDirectoryParent;
      }
    }
  }

  lemma BelowAFile(members: seq<Member>, paths: map<Path, Member>, i: nat)
    requires Seen(members, paths) && i < |members|
    requires var p := members[i].Path().value; exists n ::
      0 < n < |p| && p[..n] in paths && !paths[p[..n]].kind.Directory?
    ensures !NoClash(members)
  {
    var p := members[i].Path().value;
    var n :| 0 < n < |p| && p[..n] in paths && !paths[p[..n]].kind.Directory?;
    var f := paths[p[..n]];
    var j :| 0 <= j < |members| && members[j] == f;
    assert LiesBelowFile(members[i], members[j]);
  }

  lemma BelowNoFile(members: seq<Member>, paths: map<Path, Member>, i: nat)
    requires Seen(members, paths) && i < |members|
    requires var p := members[i].Path().value; forall n | 0 < n < |p| && p[..n] in paths ::
      paths[p[..n]].kind.Directory?
    ensures forall j | 0 <= j < |members| :: !LiesBelowFile(members[i], members[j])
  {
    var p := members[i].Path().value;
    forall j | 0 <= j < |members| ensures !LiesBelowFile(members[i], members[j]) {
      var q := members[j].Path().value;
      assert q != [];
      if q < p {
        assert p[..|q|] == q;
        assert paths[p[..|q|]] == members[j];
      }
    }
  }

  // ---------------------------------------------------------------------------
  // Extraction
  // ---------------------------------------------------------------------------

  /** `m` makes `p` a folder: it is that folder, or lies below it. */
  predicate FolderFor(m: Member, p: Path) {
    m.Path().Some? && (p < m.Path().value || (m.kind.Directory? && p == m.Path().value))
  }

  predicate FileFor(m: Member, p: Path, c: Content) {
    m.Path() == Some(p) && m.kind.Regular? && m.content == c
  }

  ghost predicate FolderExpected(members: seq<Member>, p: Path) {
    p == [] || exists i :: 0 <= i < |members| && FolderFor(members[i], p)
  }

  ghost predicate FileExpected(members: seq<Member>, p: Path, c: Content) {
    exists i :: 0 <= i < |members| && FileFor(members[i], p, c)
  }

  /** Exactly the files of the members, their folders, and the folders these lie in. */
  ghost predicate IsTreeOf(t: Tree, members: seq<Member>) {
    && (forall p: Path :: p in t && t[p].Folder? <==> FolderExpected(members, p))
    && (forall p: Path, c: Content :: p in t && t[p] == File(c) <==> FileExpected(members, p, c))
  }

  /** A directory on disk, into which a snapshot is extracted. */
  class Disk {
    var nodes: Tree

    constructor ()
      ensures nodes == map[[] := Folder]
    {
      nodes := map[[] := Folder];
    }

    /** `output.mkdir(parents=True, exist_ok=True)` */
    method MakeFolders(path: Path) returns (ok: bool)
      modifies this
      ensures ok <==> forall n | 0 < n <= |path| && path[..n] in old(nodes) :: old(nodes)[path[..n]].Folder?
      ensures ok ==> forall p :: p in nodes <==> p in old(nodes) || (p <= path && p != [])
      ensures ok ==> forall p | p in nodes :: nodes[p] == if p in old(nodes) then old(nodes)[p] else Folder
    {
      for n := 1 to |path| + 1
        invariant forall k | 0 < k < n && path[..k] in old(nodes) :: old(nodes)[path[..k]].Folder?
        invariant forall p :: p in nodes <==> p in old(nodes) || (p <= path && 0 < |p| < n)
        invariant forall p | p in nodes :: nodes[p] == if p in old(nodes) then old(nodes)[p] else Folder
      {
        var folder := path[..n];
        assert forall p: Path | p <= path && |p| == n :: p == folder;
        if folder in nodes {
          if !nodes[folder].Folder? {
            return false;
          }
        } else {
          nodes := nodes[folder := Folder];
        }
      }
      return true;
    }

    /** `output.open("xb")`, and the copy into it. */
    method CreateFile(path: Path, content: Content) returns (ok: bool)
      modifies this
      ensures ok <==>
        && path !in old(nodes) && path != []
        && path[..|path| - 1] in old(nodes) && old(nodes)[path[..|path| - 1]].Folder?
      ensures nodes == if ok then old(nodes)[path := File(content)] else old(nodes)
    {
      ok := path !in nodes && path != [] && path[..|path| - 1] in nodes && nodes[path[..|path| - 1]].Folder?;
      if ok {
        nodes := nodes[path := File(content)];
      }
    }

    /** One member of an acceptable archive: it never collides with what is there. */
    method ExtractMember(m: Member, ghost done: seq<Member>) returns (ok: bool)
      requires IsEntry(m) && NoClash(done + [m]) && IsTreeOf(nodes, done)
      modifies this
      ensures ok <==> m.kind.Regular? ==> |m.content| == m.size
      ensures ok ==> IsTreeOf(nodes, done + [m])
    {
      var path := m.Path().value;
      ghost var before := nodes;
      NothingInTheWay(before, done, m);
      if m.kind.Directory? {
        ok := MakeFolders(path);
        FolderAdded(before, nodes, done, m);
        return;
      }
      assert forall n | 0 < n <= |path| - 1 :: Parent(path)[..n] == path[..n];
      ok := MakeFolders(Parent(path));
      assert ok;
      assert FolderExpected(done, []);
      ok := CreateFile(path, m.content);
      assert ok;
      FileAdded(before, nodes, done, m);
      ok := |m.content| == m.size;
    }

    /** `_extract_members`, in any order of the members: the source takes the directories first. */
    method ExtractMembers(members: seq<Member>, ordered: seq<Member>) returns (ok: bool)
      requires Acceptable(members) && multiset(ordered) == multiset(members)
      requires nodes == map[[] := Folder]
      modifies this
      ensures ok <==> forall i | 0 <= i < |members| && members[i].kind.Regular? ::
        |members[i].content| == members[i].size
      ensures ok ==> IsTreeOf(nodes, members)
    {
      OrderDoesNotMatter(members, ordered);
      for i := 0 to |ordered|
        invariant IsTreeOf(nodes, ordered[..i])
        invariant forall k | 0 <= k < i && ordered[k].kind.Regular? :: |ordered[k].content| == ordered[k].size
      {
        assert ordered[..i + 1] == ordered[..i] + [ordered[i]];
        ClashFreeStart(ordered, i + 1);
        ok := ExtractMember(ordered[i], ordered[..i]);
        if !ok {
          assert ordered[i] in multiset(ordered);
          assert ordered[i] in members;
          return;
        }
      }
      assert ordered[..|ordered|] == ordered;
      SameMembersSameTree(nodes, ordered, members);
      assert forall k | 0 <= k < |members| :: members[k] in multiset(ordered);
      return true;
    }
  }

  lemma ClashFreeStart(members: seq<Member>, n: nat)
    requires NoClash(members) && n <= |members|
    ensures NoClash(members[..n])
  {
  }

  /** Neither the path of a new member nor one above it is a file, and a new file is new. */
  lemma NothingInTheWay(t: Tree, done: seq<Member>, m: Member)
    requires IsEntry(m) && NoClash(done + [m]) && IsTreeOf(t, done)
    ensures forall n | 0 < n <= |m.Path().value| && m.Path().value[..n] in t :: t[m.Path().value[..n]].Folder?
    ensures m.kind.Regular? ==> m.Path().value !in t
  {
    var all, p, last := done + [m], m.Path().value, |done|;
    assert all[last] == m && forall i | 0 <= i < |done| :: all[i] == done[i];
    forall i | 0 <= i < |done|
      ensures done[i].Path() != Some(p) && !LiesBelowFile(m, done[i]) && !LiesBelowFile(done[i], m)
    {
      assert all[i].Path() != all[last].Path();
      assert !LiesBelowFile(all[last], all[i]) && !LiesBelowFile(all[i], all[last]);
    }
    forall n | 0 < n <= |p| && p[..n] in t ensures t[p[..n]].Folder? {
      var q := p[..n];
      assert n == |p| ==> q == p;
      assert t[q].File? ==> FileExpected(done, q, t[q].content);
    }
    if m.kind.Regular? {
      assert !FolderExpected(done, p);
      assert p[..|p|] == p;
    }
  }

  lemma FolderAdded(t: Tree, t': Tree, done: seq<Member>, m: Member)
    requires IsEntry(m) && m.kind.Directory? && IsTreeOf(t, done)
    requires forall p :: p in t' <==> p in t || (p <= m.Path().value && p != [])
    requires forall p | p in t' :: t'[p] == if p in t then t[p] else Folder
    requires forall n | 0 < n <= |m.Path().value| && m.Path().value[..n] in t :: t[m.Path().value[..n]].Folder?
    ensures IsTreeOf(t', done + [m])
  {
    ExpectedOneMore(done, m);
    var path := m.Path().value;
    forall p: Path ensures p in t' && t'[p].Folder? <==> FolderExpected(done + [m], p) {
      if p <= path && p != [] && p in t {
        assert path[..|p|] == p;
      }
    }
  }

  lemma FileAdded(t: Tree, t': Tree, done: seq<Member>, m: Member)
    requires IsEntry(m) && m.kind.Regular? && IsTreeOf(t, done) && m.Path().value !in t
    requires forall p :: p in t' <==> p in t || (p <= Parent(m.Path().value) && p != []) || p == m.Path().value
    requires t'[m.Path().value] == File(m.content)
    requires forall p | p in t' && p != m.Path().value :: t'[p] == if p in t then t[p] else Folder
    requires forall n | 0 < n <= |m.Path().value| && m.Path().value[..n] in t :: t[m.Path().value[..n]].Folder?
    ensures IsTreeOf(t', done + [m])
  {
    ExpectedOneMore(done, m);
    var path := m.Path().value;
    forall p: Path ensures p in t' && t'[p].Folder? <==> FolderExpected(done + [m], p) {
      BelowOrEqual(path, p);
      if p < path && p != [] && p in t {
        assert path[..|p|] == p;
      }
    }
  }

  function Parent(path: Path): Path
    requires path != []
  {
    path[..|path| - 1]
  }

  lemma BelowOrEqual(path: Path, p: Path)
    requires path != []
    ensures p <= Parent(path) <==> p < path
  {
    if p < path {
      assert Parent(path)[..|p|] == p;
    }
  }

  lemma ExpectedOneMore(done: seq<Member>, m: Member)
    ensures forall p: Path :: FolderExpected(done + [m], p) <==> FolderExpected(done, p) || FolderFor(m, p)
    ensures forall p: Path, c: Content ::
      FileExpected(done + [m], p, c) <==> FileExpected(done, p, c) || FileFor(m, p, c)
  {
    var all := done + [m];
    assert all[|done|] == m && forall i | 0 <= i < |done| :: all[i] == done[i];
  }

  lemma SameMembersSameTree(t: Tree, a: seq<Member>, b: seq<Member>)
    requires multiset(a) == multiset(b) && IsTreeOf(t, a)
    ensures IsTreeOf(t, b)
  {
    assert forall m: Member :: m in multiset(a) <==> m in multiset(b);
    assert forall i | 0 <= i < |a| :: a[i] in multiset(a);
    assert forall i | 0 <= i < |b| :: b[i] in multiset(b);
    assert forall i | 0 <= i < |a| :: a[i] in b;
    assert forall i | 0 <= i < |b| :: b[i] in a;
    assert forall p: Path :: FolderExpected(a, p) <==> FolderExpected(b, p);
    assert forall p: Path, c: Content :: FileExpected(a, p, c) <==> FileExpected(b, p, c);
  }

  lemma {:induction false} OnlyOnce(s: seq<Member>, m: Member)
    requires forall i, j | 0 <= i < j < |s| :: s[i].Path() != s[j].Path()
    ensures multiset(s)[m] <= 1
  {
    if s != [] {
      var n := |s| - 1;
      OnlyOnce(s[..n], m);
      assert s == s[..n] + [s[n]];
      assert multiset(s) == multiset(s[..n]) + multiset{s[n]};
      assert forall i | 0 <= i < n :: s[..n][i] != s[n];
      assert s[n] !in multiset(s[..n]);
    }
  }

  lemma ApartIfOnce(s: seq<Member>, i: nat, j: nat)
    requires i < j < |s| && multiset(s)[s[i]] <= 1
    ensures s[i] != s[j]
  {
    assert s == s[..j] + s[j..];
    assert multiset(s) == multiset(s[..j]) + multiset(s[j..]);
    assert s[i] == s[..j][i] && s[j] == s[j..][0];
    assert s[i] in multiset(s[..j]) && s[j] in multiset(s[j..]);
  }

  lemma OrderDoesNotMatter(members: seq<Member>, ordered: seq<Member>)
    requires NoClash(members) && multiset(ordered) == multiset(members)
    ensures NoClash(ordered) && forall i | 0 <= i < |ordered| :: ordered[i] in members
  {
    forall i | 0 <= i < |ordered| ensures ordered[i] in members {
      assert ordered[i] in multiset(ordered);
    }
    forall i, j | 0 <= i < j < |ordered| ensures ordered[i].Path() != ordered[j].Path() {
      StillDistinct(members, ordered, i, j);
    }
    forall i, j | 0 <= i < |ordered| && 0 <= j < |ordered| ensures !LiesBelowFile(ordered[i], ordered[j]) {
      var a :| 0 <= a < |members| && members[a] == ordered[i];
      var b :| 0 <= b < |members| && members[b] == ordered[j];
      assert !LiesBelowFile(members[a], members[b]);
    }
  }

  lemma StillDistinct(members: seq<Member>, ordered: seq<Member>, i: nat, j: nat)
    requires NoClash(members) && multiset(ordered) == multiset(members) && i < j < |ordered|
    ensures ordered[i].Path() != ordered[j].Path()
  {
    assert ordered[i] in multiset(ordered) && ordered[j] in multiset(ordered);
    OnlyOnce(members, ordered[i]);
    ApartIfOnce(ordered, i, j);
    var a :| 0 <= a < |members| && members[a] == ordered[i];
    var b :| 0 <= b < |members| && members[b] == ordered[j];
    assert a < b || b < a;
  }

  // ---------------------------------------------------------------------------
  // Packing
  // ---------------------------------------------------------------------------

  /** The entries of a tree without its root, each once: the source takes them in name order. */
  ghost predicate Enumerates(entries: seq<Path>, t: Tree) {
    && (forall i | 0 <= i < |entries| :: entries[i] in t && entries[i] != [])
    && (forall p | p in t && p != [] :: p in entries)
    && (forall i, j | 0 <= i < j < |entries| :: entries[i] != entries[j])
  }

  /** A member of the archive that `create_archive` writes, as it is read back. */
  function Packed(t: Tree, p: Path): Member
    requires p in t
  {
    match t[p]
    case Folder => Member(NameOf(p), Directory, 0, [])
    case File(content) => Member(NameOf(p), Regular, |content|, content)
  }

  function PackedAll(t: Tree, entries: seq<Path>): seq<Member>
    requires forall i | 0 <= i < |entries| :: entries[i] in t
  {
    seq(|entries|, i requires 0 <= i < |entries| => Packed(t, entries[i]))
  }

  ghost predicate SomeBackslash(t: Tree) {
    exists p :: p in t && HasBackslash(p)
  }

  lemma {:induction false} FoldersAbove(t: Tree, p: Path, n: nat)
    requires IsTree(t) && p in t && n < |p|
    ensures p[..n] in t && t[p[..n]].Folder?
    decreases |p|
  {
    if n < |p| - 1 {
      FoldersAbove(t, p[..|p| - 1], n);
      assert p[..|p| - 1][..n] == p[..n];
    }
  }

  lemma PackedPath(t: Tree, p: Path)
    requires IsTree(t) && p in t && p != []
    ensures Packed(t, p).Path() == if HasBackslash(p) then None else Some(p)
  {
    NameReadsBack(p);
  }

  lemma PackedIsEntry(t: Tree, p: Path)
    requires IsTree(t) && p in t && p != []
    ensures IsEntry(Packed(t, p)) <==> !HasBackslash(p)
    ensures !HasBackslash(p) ==> Packed(t, p).Path() == Some(p)
  {
    PackedPath(t, p);
  }

  lemma EntriesOfPacked(t: Tree, entries: seq<Path>)
    requires IsTree(t) && Enumerates(entries, t)
    ensures (forall i | 0 <= i < |entries| :: IsEntry(PackedAll(t, entries)[i])) <==> !SomeBackslash(t)
    ensures !SomeBackslash(t) ==> forall i | 0 <= i < |entries| :: PackedAll(t, entries)[i].Path() == Some(entries[i])
  {
    var members := PackedAll(t, entries);
    forall i | 0 <= i < |entries|
      ensures (IsEntry(members[i]) <==> !HasBackslash(entries[i]))
      ensures !HasBackslash(entries[i]) ==> members[i].Path() == Some(entries[i])
    {
      PackedIsEntry(t, entries[i]);
    }
    if SomeBackslash(t) {
      var p :| p in t && HasBackslash(p);
      assert p != [];
      var i :| 0 <= i < |entries| && entries[i] == p;
      assert !IsEntry(members[i]);
    } else {
      assert forall i | 0 <= i < |entries| :: entries[i] in t && !HasBackslash(entries[i]);
    }
  }

  /** A site is accepted again after packing exactly when no name has a backslash and it is within
      the limits. */
  lemma PackedIsAcceptable(t: Tree, entries: seq<Path>)
    requires IsTree(t) && Enumerates(entries, t)
    ensures Acceptable(PackedAll(t, entries)) <==>
      !SomeBackslash(t) && |entries| <= MAX_ARCHIVE_ENTRIES && UnpackedSize(PackedAll(t, entries)) <= MAX_UNPACKED_SIZE
  {
    EntriesOfPacked(t, entries);
    if !SomeBackslash(t) {
      PackedDoesNotClash(t, entries);
    }
  }

  lemma PackedDoesNotClash(t: Tree, entries: seq<Path>)
    requires IsTree(t) && Enumerates(entries, t)
    requires forall i | 0 <= i < |entries| :: PackedAll(t, entries)[i].Path() == Some(entries[i])
    ensures NoClash(PackedAll(t, entries))
  {
    var members := PackedAll(t, entries);
    forall i, j | 0 <= i < |members| && 0 <= j < |members| ensures !LiesBelowFile(members[i], members[j]) {
      var p, q := entries[i], entries[j];
      if q < p {
        FoldersAbove(t, p, |q|);
        assert p[..|q|] == q;
      }
    }
    assert forall i, j | 0 <= i < j < |members| :: entries[i] != entries[j];
  }

  /** A tree is what its own members describe. */
  lemma PackedDescribesTree(t: Tree, entries: seq<Path>)
    requires IsTree(t) && Enumerates(entries, t) && Acceptable(PackedAll(t, entries))
    ensures IsTreeOf(t, PackedAll(t, entries))
  {
    var members := PackedAll(t, entries);
    forall i | 0 <= i < |entries| ensures members[i].Path() == Some(entries[i]) {
      assert IsEntry(members[i]);
      PackedPath(t, entries[i]);
    }
    forall p: Path ensures FolderExpected(members, p) <==> p in t && t[p].Folder? {
      FoldersOfPacked(t, entries, p);
    }
    forall p: Path, c: Content ensures FileExpected(members, p, c) <==> p in t && t[p] == File(c) {
      FilesOfPacked(t, entries, p, c);
    }
  }

  /** Extracting a packed site gives back the same tree. */
  lemma ExtractingPackedGivesBack(t: Tree, entries: seq<Path>, extracted: Tree)
    requires IsTree(t) && Enumerates(entries, t) && Acceptable(PackedAll(t, entries))
    requires IsTreeOf(extracted, PackedAll(t, entries))
    ensures extracted == t
  {
    PackedDescribesTree(t, entries);
    MembersGiveOneTree(extracted, t, PackedAll(t, entries));
  }

  /** Members describe one tree only. */
  lemma MembersGiveOneTree(a: Tree, b: Tree, members: seq<Member>)
    requires IsTreeOf(a, members) && IsTreeOf(b, members)
    ensures a == b
  {
    forall p: Path ensures (p in a && a[p].Folder?) <==> (p in b && b[p].Folder?) {
      assert (p in a && a[p].Folder?) <==> FolderExpected(members, p);
    }
    forall p: Path, c: Content ensures (p in a && a[p] == File(c)) <==> (p in b && b[p] == File(c)) {
      assert (p in a && a[p] == File(c)) <==> FileExpected(members, p, c);
    }
    SameTree(a, b);
  }

  lemma FoldersOfPacked(t: Tree, entries: seq<Path>, p: Path)
    requires IsTree(t) && Enumerates(entries, t)
    requires forall i | 0 <= i < |entries| :: PackedAll(t, entries)[i].Path() == Some(entries[i])
    ensures FolderExpected(PackedAll(t, entries), p) <==> p in t && t[p].Folder?
  {
    if p != [] && p in t && t[p].Folder? {
      FolderIsPacked(t, entries, p);
    }
    if p != [] && FolderExpected(PackedAll(t, entries), p) {
      var i :| 0 <= i < |entries| && FolderFor(PackedAll(t, entries)[i], p);
      PackedForFolder(t, entries[i], p);
    }
  }

  lemma FolderIsPacked(t: Tree, entries: seq<Path>, p: Path)
    requires Enumerates(entries, t) && p != [] && p in t && t[p].Folder?
    requires forall i | 0 <= i < |entries| :: PackedAll(t, entries)[i].Path() == Some(entries[i])
    ensures FolderExpected(PackedAll(t, entries), p)
  {
    var i :| 0 <= i < |entries| && entries[i] == p;
    assert PackedAll(t, entries)[i].Path() == Some(entries[i]);
    assert FolderFor(PackedAll(t, entries)[i], p);
  }

  lemma PackedForFolder(t: Tree, entry: Path, p: Path)
    requires IsTree(t) && entry in t && p != []
    requires Packed(t, entry).Path() == Some(entry) && FolderFor(Packed(t, entry), p)
    ensures p in t && t[p].Folder?
  {
    if p < entry {
      FoldersAbove(t, entry, |p|);
      assert entry[..|p|] == p;
    }
  }

  lemma FilesOfPacked(t: Tree, entries: seq<Path>, p: Path, c: Content)
    requires IsTree(t) && Enumerates(entries, t)
    requires forall i | 0 <= i < |entries| :: PackedAll(t, entries)[i].Path() == Some(entries[i])
    ensures FileExpected(PackedAll(t, entries), p, c) <==> p in t && t[p] == File(c)
  {
    var members := PackedAll(t, entries);
    if p in t && t[p] == File(c) {
      assert p != [];
      var i :| 0 <= i < |entries| && entries[i] == p;
      assert FileFor(members[i], p, c);
    }
  }

  lemma SameTree(a: Tree, b: Tree)
    requires forall p: Path :: (p in a && a[p].Folder?) <==> (p in b && b[p].Folder?)
    requires forall p: Path, c: Content :: (p in a && a[p] == File(c)) <==> (p in b && b[p] == File(c))
    ensures a == b
  {
    forall p: Path ensures p in a <==> p in b {
      if p in a && a[p].File? {
        assert a[p] == File(a[p].content);
      }
      if p in b && b[p].File? {
        assert b[p] == File(b[p].content);
      }
    }
    forall p | p in a ensures a[p] == b[p] {
      if a[p].File? {
        assert a[p] == File(a[p].content);
      }
    }
  }

  /** Packing a site, validating the archive and extracting it into a new directory. */
  method RoundTrip(t: Tree, entries: seq<Path>, ordered: seq<Member>) returns (refusal: Refusal, extracted: Tree)
    requires IsTree(t) && Enumerates(entries, t)
    requires multiset(ordered) == multiset(PackedAll(t, entries))
    ensures refusal.Fine? <==>
      !SomeBackslash(t) && |entries| <= MAX_ARCHIVE_ENTRIES && UnpackedSize(PackedAll(t, entries)) <= MAX_UNPACKED_SIZE
    ensures refusal.Fine? ==> extracted == t
  {
    extracted := map[];
    var members := PackedAll(t, entries);
    refusal := ValidatedMembers(members);
    PackedIsAcceptable(t, entries);
    if refusal.Fine? {
      var disk := new Disk();
      var ok := disk.ExtractMembers(members, ordered);
      assert ok;
      extracted := disk.nodes;
      ExtractingPackedGivesBack(t, entries, extracted);
    }
  }
}
