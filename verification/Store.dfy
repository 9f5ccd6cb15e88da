/** The durable checkpoint store (internal/checkpoint/store.go) over the crash-prone disk:
    stage, copy, rename, publish, load, verify and restore. */
module Store {
  import opened Unicode
  import opened Disk
  import opened Registry
  import Decimal

  const CURRENT_SCHEMA_VERSION := 1
  const LATEST := "latest"
  const STAGING := ".staging-"
  const TEMPORARY := ".latest-"
  const MANIFEST: Rel := ["manifest.json"]

  function ArchiveName(index: nat): Rel {
    ["workspaces", Decimal.Pad3(index)]
  }

  predicate ValidID(id: string) {
    !Blank(id) && '/' !in id
  }

  predicate IsPrefix(prefix: string, s: string) {
    prefix <= s
  }

  /** IDs whose publication is safe; every generated ID (`checkpoint-` and 32 hex digits)
      is one of them. */
  predicate Usable(id: string) {
    ValidID(id) && Trim(id) == id && id != LATEST && !IsPrefix(STAGING, id)
  }

  /** IDs that `newCheckpointID` can produce. */
  predicate Generated(id: string) {
    && |id| == 43 && IsPrefix("checkpoint-", id)
    && forall i :: 11 <= i < 43 ==> '0' <= id[i] <= '9' || 'a' <= id[i] <= 'f'
  }

  lemma SomeGenerated()
    ensures exists id :: Generated(id)
  {
    var id := "checkpoint-" + seq(32, _ => '0');
    assert Generated(id);
  }

  lemma GeneratedIsUsable(id: string)
    requires Generated(id)
    ensures Usable(id)
  {
    assert id[0] == 'c' && id[..11] == "checkpoint-";
    assert !IsSpace(id[0]) && !IsSpace(id[42]);
    assert forall i :: 0 <= i < 43 ==> id[i] != '/' by {
      assert forall i :: 0 <= i < 11 ==> id[i] == "checkpoint-"[i];
    }
    assert STAGING[0] != id[0];
  }

  /** A finite directory leaves unused names under every prefix. */
  lemma UnusedName(names: set<string>, prefix: string)
    ensures exists name :: IsPrefix(prefix, name) && name !in names
  {
    var bound := LongerThanAll(names);
    var name := prefix + seq(bound, _ => '0');
    assert IsPrefix(prefix, name) && name !in names;
  }

  lemma {:induction false} LongerThanAll(names: set<string>) returns (bound: nat)
    ensures forall name :: name in names ==> |name| < bound
  {
    if names == {} {
      bound := 0;
    } else {
      var name :| name in names;
      bound := LongerThanAll(names - {name});
      bound := if bound > |name| then bound else |name| + 1;
    }
  }

  // ------------------------------------------------------------ reading back

  datatype LoadResult = Loaded(state: State) | NotExist | Broken
  datatype Check = Good | Missing | Bad

  function VerifyEntries(folder: Tree, archive: Rel, entries: seq<CopiedFile>): Check {
    if entries == [] then Good else
      var e := entries[0];
      if !ValidRel(e.path) then Bad
      else if e.directory then VerifyEntries(folder, archive, entries[1..])
      else if archive + e.path !in folder then Missing
      else if folder[archive + e.path].Dir? || Sha(folder[archive + e.path].data) != e.sum then Bad
      else VerifyEntries(folder, archive, entries[1..])
  }

  function VerifyWorkspaces(folder: Tree, workspaces: seq<WorkspaceCopy>): Check {
    if workspaces == [] then Good
    else if !ValidRel(workspaces[0].archive) then Bad
    else
      var first := VerifyEntries(folder, workspaces[0].archive, workspaces[0].entries);
      if first.Good? then VerifyWorkspaces(folder, workspaces[1..]) else first
  }

  function LoadNamed(root: Root, id: string): LoadResult {
    if !ValidID(id) then Broken
    else if id !in root then NotExist
    else if root[id].Single? then Broken
    else
      var folder := root[id].tree;
      if MANIFEST !in folder then NotExist
      else match folder[MANIFEST]
        case File(ManifestDoc(state, sum)) =>
          if sum != Sha(StateDoc(state)) || state.version != CURRENT_SCHEMA_VERSION || state.id != id then Broken
          else (match VerifyWorkspaces(folder, state.workspaces)
            case Good => Loaded(state)
            case Missing => NotExist
            case Bad => Broken)
        case _ => Broken
  }

  /** `Store.Load`: `NotExist` stands for every error that wraps `fs.ErrNotExist`. */
  function Lookup(root: Root): LoadResult {
    if LATEST !in root then NotExist
    else match root[LATEST]
      case Single(Bytes(text)) => LoadNamed(root, Trim(text))
      case _ => Broken
  }

  /** When `latest` exists it names a folder, and the staging cleanup cannot hit that folder. */
  predicate Steady(root: Root) {
    LATEST in root ==>
      && root[LATEST].Single? && root[LATEST].data.Bytes? && Usable(Trim(root[LATEST].data.text))
      && Lookup(root) != NotExist
  }

  /** The invariant of a run directory: what `latest` names is a complete, intact checkpoint. */
  predicate Sound(root: Root) {
    Steady(root) && Lookup(root) != Broken
  }

  // -------------------------------------------------------- workspace copies

  /** The entry list describes exactly this tree, digests included. */
  ghost predicate Describes(entries: seq<CopiedFile>, tree: Tree) {
    && (forall i :: 0 <= i < |entries| ==> Matches(entries[i], tree))
    && Paths(entries) == tree.Keys
  }

  predicate Matches(e: CopiedFile, tree: Tree) {
    e.path in tree && match tree[e.path]
      case Dir => e.directory && e.sum == NoSum
      case File(data) => !e.directory && e.sum == Sha(data)
  }

  /** The files of `tree` are stored below `archive`. */
  ghost predicate Archived(folder: Tree, archive: Rel, tree: Tree) {
    forall rel :: rel in tree && tree[rel].File? ==> archive + rel in folder && folder[archive + rel] == tree[rel]
  }

  /** The copies in a state are faithful images of the workspaces they name. */
  ghost predicate Captures(workspaces: seq<WorkspaceCopy>, work: map<string, Tree>) {
    forall i :: 0 <= i < |workspaces| ==>
      && workspaces[i].path.dir in work
      && workspaces[i].archive == ArchiveName(i)
      && Describes(workspaces[i].entries, work[workspaces[i].path.dir])
  }

  ghost predicate ClosedWork(work: map<string, Tree>) {
    forall dir :: dir in work ==> Closed(work[dir])
  }

  function Paths(entries: seq<CopiedFile>): set<Rel> {
    set e | e in entries :: e.path
  }

  /** Nothing was lost, and what is new lies on the way to `archive` or below it. */
  ghost predicate GrewUnder(before: Tree, after: Tree, archive: Rel) {
    && (forall p :: p in before ==> p in after && after[p] == before[p])
    && (forall p :: p in after && p !in before ==> p != [] && (p <= archive || archive <= p))
  }

  // ------------------------------------------------------------------ lemmas

  /** One entry whose file, if it is one, is stored with the recorded digest. */
  predicate Stored(folder: Tree, archive: Rel, e: CopiedFile) {
    && ValidRel(e.path)
    && (!e.directory ==>
          && archive + e.path in folder && folder[archive + e.path].File?
          && Sha(folder[archive + e.path].data) == e.sum)
  }

  /** Verification succeeds exactly when every recorded file is stored with its digest. */
  lemma {:induction false} VerifyEntriesGood(folder: Tree, archive: Rel, entries: seq<CopiedFile>)
    ensures VerifyEntries(folder, archive, entries).Good? <==>
            forall i :: 0 <= i < |entries| ==> Stored(folder, archive, entries[i])
  {
    if entries != [] {
      VerifyEntriesGood(folder, archive, entries[1..]);
      assert entries == [entries[0]] + entries[1..];
      assert forall i :: 0 < i < |entries| ==> entries[i] == entries[1..][i - 1];
    }
  }

  lemma {:induction false} VerifyWorkspacesGood(folder: Tree, workspaces: seq<WorkspaceCopy>)
    ensures VerifyWorkspaces(folder, workspaces).Good? <==>
            forall i :: 0 <= i < |workspaces| ==>
              ValidRel(workspaces[i].archive)
              && VerifyEntries(folder, workspaces[i].archive, workspaces[i].entries).Good?
  {
    if workspaces != [] {
      VerifyWorkspacesGood(folder, workspaces[1..]);
      assert forall i :: 0 < i < |workspaces| ==> workspaces[i] == workspaces[1..][i - 1];
    }
  }

  /** Where every file is stored, only a path that is no valid one can fail verification. */
  lemma {:induction false} VerifyEntriesBad(folder: Tree, archive: Rel, entries: seq<CopiedFile>)
    requires forall i :: 0 <= i < |entries| ==> ValidRel(entries[i].path) ==> Stored(folder, archive, entries[i])
    ensures VerifyEntries(folder, archive, entries) != Missing
  {
    if entries != [] {
      assert entries[0].path == entries[0].path;
      assert forall i :: 0 <= i < |entries| - 1 ==> entries[1..][i] == entries[i + 1];
      VerifyEntriesBad(folder, archive, entries[1..]);
    }
  }

  lemma {:induction false} VerifyWorkspacesBad(folder: Tree, workspaces: seq<WorkspaceCopy>)
    requires forall i :: 0 <= i < |workspaces| ==>
               VerifyEntries(folder, workspaces[i].archive, workspaces[i].entries) != Missing
    ensures VerifyWorkspaces(folder, workspaces) != Missing
  {
    if workspaces != [] {
      assert forall i :: 0 <= i < |workspaces| - 1 ==> workspaces[1..][i] == workspaces[i + 1];
      VerifyWorkspacesBad(folder, workspaces[1..]);
    }
  }

  /** A stored copy of a real tree passes verification exactly when the tree is plain. */
  lemma ArchivedVerifies(folder: Tree, archive: Rel, entries: seq<CopiedFile>, tree: Tree)
    requires Closed(tree) && Describes(entries, tree) && Archived(folder, archive, tree)
    ensures VerifyEntries(folder, archive, entries) == if Plain(tree) then Good else Bad
  {
    VerifyEntriesGood(folder, archive, entries);
    forall i | 0 <= i < |entries| && ValidRel(entries[i].path) ensures Stored(folder, archive, entries[i]) {
      assert Matches(entries[i], tree);
    }
    VerifyEntriesBad(folder, archive, entries);
    PlainPaths(entries, tree);
  }

  lemma PlainPaths(entries: seq<CopiedFile>, tree: Tree)
    requires Closed(tree) && Describes(entries, tree)
    ensures Plain(tree) <==> forall i :: 0 <= i < |entries| ==> ValidRel(entries[i].path)
  {
    forall i | 0 <= i < |entries| ensures entries[i].path in tree {
      assert Matches(entries[i], tree);
    }
    forall rel | rel in tree ensures exists i :: 0 <= i < |entries| && entries[i].path == rel {
      assert rel in Paths(entries);
    }
  }

  lemma {:induction false} TrimNewline(id: string)
    ensures Trim(id + "\n") == Trim(id)
  {
    assert (id + "\n")[..|id + "\n"| - 1] == id;
  }

  /** Nothing that was there has changed, and `latest` has not appeared. */
  ghost predicate Extends(base: Root, root: Root) {
    && (forall name :: name in base ==> name in root && root[name] == base[name])
    && (LATEST in root ==> LATEST in base)
  }

  lemma ExtendsLookup(base: Root, root: Root)
    requires Steady(base) && Extends(base, root)
    ensures Lookup(root) == Lookup(base) && Steady(root)
  {
  }

  /** Only staging entries have changed or gone. */
  ghost predicate Pruned(base: Root, root: Root) {
    forall name :: !IsPrefix(STAGING, name) ==>
      (name in root <==> name in base) && (name in base ==> root[name] == base[name])
  }

  lemma PrunedLookup(base: Root, root: Root)
    requires Steady(base) && Pruned(base, root)
    ensures Lookup(root) == Lookup(base) && Steady(root)
  {
    assert !IsPrefix(STAGING, LATEST) by {
      assert LATEST[0] != STAGING[0];
    }
  }

  lemma PublishedLookup(root: Root, id: string, folder: Tree, state: State)
    requires Usable(id) && state.id == id && state.version == CURRENT_SCHEMA_VERSION
    requires MANIFEST in folder && folder[MANIFEST] == File(ManifestDoc(state, Sha(StateDoc(state))))
    requires VerifyWorkspaces(folder, state.workspaces) != Missing
    requires id in root && root[id] == Folder(folder)
    requires LATEST in root && root[LATEST] == Single(Bytes(id + "\n"))
    ensures Steady(root) && Lookup(root) == Readback(state, VerifyWorkspaces(folder, state.workspaces).Good?)
  {
    TrimNewline(id);
  }

  /** Paths that may exist in a staging folder before archive `index` is copied. */
  ghost predicate OnlyArchives(folder: Tree, index: nat) {
    forall p :: p in folder ==>
      && p != [] && p[0] == "workspaces"
      && (|p| >= 2 ==> exists j :: 0 <= j < index && p[1] == Decimal.Pad3(j))
  }

  lemma TodoStep(wanted: set<Workspace>, todo: set<Workspace>, path: Workspace)
    requires path in todo && todo <= wanted
    ensures (wanted - todo) + {path} == wanted - (todo - {path})
  {
  }

  lemma NothingCopied(work: map<string, Tree>)
    ensures OnlyArchives(map[], 0) && Captures([], work) && AllArchived(map[], [], work) && CopiedPaths([]) == {}
  {
  }

  lemma NoManifestYet(folder: Tree, index: nat)
    requires OnlyArchives(folder, index)
    ensures MANIFEST !in folder
  {
  }

  lemma ArchiveIsNew(folder: Tree, index: nat, p: Rel)
    requires OnlyArchives(folder, index) && p in folder
    ensures !(ArchiveName(index) <= p)
  {
    if ArchiveName(index) <= p {
      assert p[1] == ArchiveName(index)[1];
      var j :| 0 <= j < index && p[1] == Decimal.Pad3(j);
      Decimal.Pad3Injective(j, index);
    }
  }

  lemma PathsAppend(entries: seq<CopiedFile>, e: CopiedFile)
    ensures Paths(entries + [e]) == Paths(entries) + {e.path}
  {
    assert (entries + [e])[|entries|] == e;
    forall x | x in entries ensures x in entries + [e] {
    }
  }

  lemma CopyStep(start: Tree, before: Tree, after: Tree, archive: Rel, rel: Rel)
    requires archive != [] && forall p :: p in start ==> !(archive <= p)
    requires GrewUnder(start, before, archive) && TouchedAt(before, after, archive + rel)
    ensures GrewUnder(start, after, archive)
  {
    assert archive <= archive + rel;
    forall p | p in after && p !in start ensures p != [] && (p <= archive || archive <= p) {
      if p !in before && p != archive + rel {
        assert p <= archive + rel;
        if |p| <= |archive| {
          assert p == (archive + rel)[..|p|] == archive[..|p|];
        } else {
          assert archive == (archive + rel)[..|archive|] == p[..|archive|];
        }
      }
    }
  }

  lemma ArchivedStep(before: Tree, after: Tree, archive: Rel, source: Tree, todo: set<Rel>, rel: Rel)
    requires rel in todo && todo <= source.Keys
    requires Archived(before, archive, source - todo) && TouchedAt(before, after, archive + rel)
    requires source[rel].File? ==> archive + rel in after && after[archive + rel] == source[rel]
    ensures Archived(after, archive, source - (todo - {rel}))
  {
    forall other | other in source && other !in todo && source[other].File?
      ensures archive + other in after && after[archive + other] == source[other]
    {
      assert other in source - todo;
      assert (archive + other)[|archive|..] == other && (archive + rel)[|archive|..] == rel;
    }
  }

  function Wanted(registry: seq<SavedEntry>, roots: seq<Workspace>): set<Workspace> {
    (set s | s in registry :: s.workspace) + (set root | root in roots)
  }

  function CopiedPaths(copies: seq<WorkspaceCopy>): set<Workspace> {
    set c | c in copies :: c.path
  }

  ghost predicate AllArchived(folder: Tree, copies: seq<WorkspaceCopy>, work: map<string, Tree>) {
    forall i :: 0 <= i < |copies| && copies[i].path.dir in work ==>
      Archived(folder, copies[i].archive, work[copies[i].path.dir])
  }

  lemma OnlyArchivesStep(before: Tree, after: Tree, index: nat)
    requires OnlyArchives(before, index) && GrewUnder(before, after, ArchiveName(index))
    ensures OnlyArchives(after, index + 1)
  {
    forall p | p in after
      ensures p != [] && p[0] == "workspaces"
      ensures |p| >= 2 ==> exists j :: 0 <= j < index + 1 && p[1] == Decimal.Pad3(j)
    {
      if p in before {
        if |p| >= 2 {
          var j :| 0 <= j < index && p[1] == Decimal.Pad3(j);
          assert 0 <= j < index + 1;
        }
      } else {
        assert p[0] == ArchiveName(index)[0];
        if |p| >= 2 {
          assert p[1] == ArchiveName(index)[1];
        }
      }
    }
  }

  lemma CopiesStep(before: Tree, after: Tree, copies: seq<WorkspaceCopy>, copy: WorkspaceCopy, work: map<string, Tree>)
    requires GrewUnder(before, after, copy.archive) && copy.archive == ArchiveName(|copies|)
    requires AllArchived(before, copies, work) && Captures(copies, work)
    requires copy.path.dir in work && Describes(copy.entries, work[copy.path.dir])
    requires Archived(after, copy.archive, work[copy.path.dir])
    ensures AllArchived(after, copies + [copy], work) && Captures(copies + [copy], work)
    ensures CopiedPaths(copies + [copy]) == CopiedPaths(copies) + {copy.path}
  {
    assert (copies + [copy])[|copies|] == copy;
    forall c | c in copies ensures c in copies + [copy] {
    }
    forall i | 0 <= i < |copies| ensures Archived(after, copies[i].archive, work[copies[i].path.dir]) {
      assert Archived(before, copies[i].archive, work[copies[i].path.dir]);
    }
  }

  /** No wanted workspace has a top-level name of white space only. */
  ghost predicate PlainWork(wanted: set<Workspace>, work: map<string, Tree>) {
    forall w :: w in wanted && w.dir in work ==> Plain(work[w.dir])
  }

  /** What verification makes of the copies that a commit stores... */
  function Verdict(plain: bool): Check {
    if plain then Good else Bad
  }

  /** ...and what `Load` makes of the checkpoint, once published. */
  function Readback(committed: State, plain: bool): LoadResult {
    if plain then Loaded(committed) else Broken
  }

  /** `root[name]` is a whole checkpoint of `state`, which was taken from `work`. */
  ghost predicate Complete(root: Root, name: string, state: State, work: map<string, Tree>) {
    && name in root && root[name].Folder?
    && MANIFEST in root[name].tree
    && root[name].tree[MANIFEST] == File(ManifestDoc(state, Sha(StateDoc(state))))
    && VerifyWorkspaces(root[name].tree, state.workspaces) == Verdict(PlainWork(CopiedPaths(state.workspaces), work))
  }

  lemma CopyVerifies(before: Tree, after: Tree, copies: seq<WorkspaceCopy>, work: map<string, Tree>, i: nat)
    requires ClosedWork(work) && Captures(copies, work) && AllArchived(before, copies, work)
    requires TouchedAt(before, after, MANIFEST) && MANIFEST !in before && i < |copies|
    ensures ValidRel(copies[i].archive)
    ensures VerifyEntries(after, copies[i].archive, copies[i].entries) == Verdict(Plain(work[copies[i].path.dir]))
  {
    var tree := work[copies[i].path.dir];
    assert Archived(before, copies[i].archive, tree);
    assert Archived(after, copies[i].archive, tree);
    assert ArchiveName(i)[0] == "workspaces" != "..";
    ArchivedVerifies(after, copies[i].archive, copies[i].entries, tree);
  }

  lemma PlainCopies(copies: seq<WorkspaceCopy>, work: map<string, Tree>)
    requires Captures(copies, work)
    ensures PlainWork(CopiedPaths(copies), work) <==> forall i :: 0 <= i < |copies| ==> Plain(work[copies[i].path.dir])
  {
    forall i | 0 <= i < |copies| ensures copies[i].path in CopiedPaths(copies) {
    }
  }

  lemma StagedVerifies(before: Tree, after: Tree, copies: seq<WorkspaceCopy>, work: map<string, Tree>)
    requires ClosedWork(work) && Captures(copies, work) && AllArchived(before, copies, work)
    requires TouchedAt(before, after, MANIFEST) && MANIFEST !in before
    ensures VerifyWorkspaces(after, copies) == Verdict(PlainWork(CopiedPaths(copies), work))
  {
    forall i | 0 <= i < |copies|
      ensures ValidRel(copies[i].archive)
      ensures VerifyEntries(after, copies[i].archive, copies[i].entries) == Verdict(Plain(work[copies[i].path.dir]))
    {
      CopyVerifies(before, after, copies, work, i);
    }
    PlainCopies(copies, work);
    VerifyWorkspacesGood(after, copies);
    VerifyWorkspacesBad(after, copies);
  }

  /** Nothing of a commit shows yet. */
  ghost predicate Kept(base: Image, image: Image) {
    image.work == base.work && Steady(image.root) && Lookup(image.root) == Lookup(base.root)
  }

  /** `latest` names the new checkpoint, which reads back exactly when the wanted workspaces
      are plain. */
  ghost predicate Published(base: Image, image: Image, committed: State) {
    && image.work == base.work && Steady(image.root)
    && Captures(committed.workspaces, base.work)
    && CopiedPaths(committed.workspaces) == Wanted(committed.registry, committed.roots)
    && Lookup(image.root) == Readback(committed, PlainWork(Wanted(committed.registry, committed.roots), base.work))
  }

  /** A published checkpoint is whole: it copies exactly the workspaces that some registered
      artifact lies in or that are named as roots, each as it stands. */
  lemma EveryWorkspaceIsCopied(base: Image, image: Image, committed: State, path: Workspace)
    requires Published(base, image, committed)
    ensures (exists s :: s in committed.registry && s.workspace == path) || path in committed.roots <==>
              exists i :: 0 <= i < |committed.workspaces| && CopyOf(committed.workspaces[i], path, base.work)
  {
    hide Describes, PlainWork;
    var copies := committed.workspaces;
    if path in CopiedPaths(copies) {
      var c :| c in copies && c.path == path;
      var i :| 0 <= i < |copies| && copies[i] == c;
      assert CopyOf(copies[i], path, base.work);
    }
    assert path in Wanted(committed.registry, committed.roots) <==>
             (exists s :: s in committed.registry && s.workspace == path) || path in committed.roots;
  }

  ghost predicate CopyOf(copy: WorkspaceCopy, path: Workspace, work: map<string, Tree>) {
    copy.path == path && path.dir in work && Describes(copy.entries, work[path.dir])
  }

  ghost predicate OldOrNew(base: Image, image: Image, committed: State) {
    Kept(base, image) || Published(base, image, committed)
  }

  /** One image of an atomic commit: it reads back as the old checkpoint or as the new one. */
  ghost predicate Atomic(base: Image, image: Image, committed: State) {
    && image.work == base.work && Sound(image.root)
    && (Lookup(image.root) == Lookup(base.root) || Lookup(image.root) == Loaded(committed))
  }

  /** A commit that publishes is crash atomic exactly when no wanted workspace has a top-level
      name of white space only. */
  lemma AtomicExactlyWhenPlain(base: Image, history: seq<Image>, committed: State)
    requires Sound(base.root) && history != [] && Published(base, history[|history| - 1], committed)
    requires forall k :: 0 <= k < |history| ==> OldOrNew(base, history[k], committed)
    ensures (forall k :: 0 <= k < |history| ==> Atomic(base, history[k], committed)) <==>
            PlainWork(Wanted(committed.registry, committed.roots), base.work)
  {
    var last := history[|history| - 1];
    assert Atomic(base, last, committed) <==> PlainWork(Wanted(committed.registry, committed.roots), base.work);
  }

  /** Whatever the workspaces hold, before it publishes a commit does no harm. */
  lemma AtomicWhenPlain(base: Image, image: Image, committed: State)
    requires Sound(base.root) && OldOrNew(base, image, committed)
    ensures Atomic(base, image, committed) <==>
            Kept(base, image) || PlainWork(Wanted(committed.registry, committed.roots), base.work)
  {
  }

  /** The folder of `committed` has been renamed into place and nothing else has changed. */
  ghost predicate Renamed(base: Image, image: Image, committed: State) {
    && image.work == base.work
    && committed.id !in base.root && image.root - {committed.id} == base.root
    && Complete(image.root, committed.id, committed, base.work) && Captures(committed.workspaces, base.work)
    && CopiedPaths(committed.workspaces) == Wanted(committed.registry, committed.roots)
  }

  ghost predicate Staging(base: Image, image: Image, stage: string, committed: State) {
    OnlyAt(base, image, InRoot(stage)) || Renamed(base, image, committed)
  }

  /** The rename of a filled staging folder. */
  lemma RenamedIntoPlace(base: Image, filled: Image, image: Image, stage: string, committed: State)
    requires OnlyAt(base, filled, InRoot(stage)) && stage !in base.root && stage in filled.root
    requires Complete(filled.root, stage, committed, base.work) && Captures(committed.workspaces, base.work)
    requires CopiedPaths(committed.workspaces) == Wanted(committed.registry, committed.roots)
    requires committed.id !in filled.root
    requires image == filled.(root := (filled.root - {stage})[committed.id := filled.root[stage]])
    ensures Renamed(base, image, committed) && image.root.Keys == base.root.Keys + {committed.id}
  {
    hide Captures, PlainWork, Wanted, CopiedPaths, VerifyWorkspaces;
    assert filled.root - {stage} == base.root - {stage} == base.root;
    assert image.root - {committed.id} == base.root;
  }

  lemma KeptBeforePublishing(base: Image, image: Image, stage: string, committed: State)
    requires Steady(base.root) && Staging(base, image, stage, committed)
    requires stage !in base.root && stage != LATEST && committed.id != LATEST
    ensures Kept(base, image)
  {
    if OnlyAt(base, image, InRoot(stage)) {
      KeptWhileStaging(base, image, stage);
    } else {
      ExtendsLookup(base.root, image.root);
    }
  }

  /** Until the rename onto `latest` nothing shows. */
  lemma KeptWhileStaging(base: Image, image: Image, stage: string)
    requires Steady(base.root) && OnlyAt(base, image, InRoot(stage)) && stage !in base.root && stage != LATEST
    ensures Kept(base, image)
  {
    assert base.root - {stage} == base.root;
    forall name | name in base.root ensures name in image.root && image.root[name] == base.root[name] {
      assert name in image.root - {stage};
    }
    ExtendsLookup(base.root, image.root);
  }

  lemma OncePublished(base: Image, image: Image, committed: State)
    requires image.work == base.work && Usable(committed.id) && committed.version == CURRENT_SCHEMA_VERSION
    requires Complete(image.root, committed.id, committed, base.work) && Captures(committed.workspaces, base.work)
    requires CopiedPaths(committed.workspaces) == Wanted(committed.registry, committed.roots)
    requires LATEST in image.root && image.root[LATEST] == Single(Bytes(committed.id + "\n"))
    ensures Published(base, image, committed)
  {
    PublishedLookup(image.root, committed.id, image.root[committed.id].tree, committed);
  }

  ghost predicate Pointing(mid: Image, image: Image, id: string) {
    image.work == mid.work && (Extends(mid.root, image.root) || image.root == Pointed(mid.root, id))
  }

  /** `latest` names `id`. */
  function Pointed(root: Root, id: string): Root {
    root[LATEST := Single(Bytes(id + "\n"))]
  }

  lemma WhilePointing(base: Image, mid: Image, image: Image, committed: State)
    requires Usable(committed.id) && committed.version == CURRENT_SCHEMA_VERSION
    requires Renamed(base, mid, committed) && Pointing(mid, image, committed.id)
    ensures Steady(base.root) ==> OldOrNew(base, image, committed)
    ensures image.root == Pointed(mid.root, committed.id) ==> Published(base, image, committed)
  {
    if Extends(mid.root, image.root) && Steady(base.root) {
      forall name | name in base.root ensures name in mid.root && mid.root[name] == base.root[name] {
        assert name in mid.root - {committed.id};
      }
      assert LATEST in mid.root ==> LATEST in mid.root - {committed.id};
      ExtendsLookup(base.root, image.root);
    }
    if image.root == Pointed(mid.root, committed.id) {
      OncePublished(base, image, committed);
    }
  }

  /** Every image of a commit: `h1` ends the folder phase in `mid`, `h2` the publishing of `latest`. */
  lemma CommitHistory(base: Image, mid: Image, h0: seq<Image>, h1: seq<Image>, h2: seq<Image>, stage: string,
                      committed: State)
    requires |h0| <= |h1| <= |h2| && h1[..|h0|] == h0 && h2[..|h1|] == h1
    requires stage !in base.root && stage != LATEST && committed.version == CURRENT_SCHEMA_VERSION
    requires forall k :: |h0| <= k < |h1| ==> Staging(base, h1[k], stage, committed)
    requires |h1| < |h2| ==> Renamed(base, mid, committed)
    requires forall k :: |h1| <= k < |h2| ==> Pointing(mid, h2[k], committed.id)
    ensures h2[..|h0|] == h0
    ensures forall k :: |h0| <= k < |h2| ==> h2[k].work == base.work
    ensures Steady(base.root) && Usable(committed.id) ==>
              forall k :: |h0| <= k < |h2| ==> OldOrNew(base, h2[k], committed)
  {
    assert h2[..|h0|] == h2[..|h1|][..|h0|];
    forall k | |h0| <= k < |h2|
      ensures h2[k].work == base.work
      ensures Steady(base.root) && Usable(committed.id) ==> OldOrNew(base, h2[k], committed)
    {
      if k < |h1| {
        assert h2[k] == h2[..|h1|][k] == h1[k];
        if Steady(base.root) && Usable(committed.id) {
          KeptBeforePublishing(base, h2[k], stage, committed);
        }
      } else if Usable(committed.id) {
        WhilePointing(base, mid, h2[k], committed);
      }
    }
  }

  /** What `cleanupStaging` leaves when it succeeds. */
  function Cleaned(root: Root): Root {
    map name | name in root && !(IsPrefix(STAGING, name) && root[name].Folder?) :: root[name]
  }

  /** The same in the middle of the sweep, with the folders of `todo` to go. */
  ghost predicate CleanedBut(base: Root, todo: set<string>, root: Root) {
    root == map name | name in base && (name in todo || name in Cleaned(base)) :: base[name]
  }

  lemma CleanedOne(base: Root, todo: set<string>, before: Root, after: Root, name: string)
    requires name in todo && name !in Cleaned(base) && CleanedBut(base, todo, before)
    requires name !in after && after - {name} == before - {name}
    ensures CleanedBut(base, todo - {name}, after)
  {
    assert after == before - {name};
  }

  lemma StagingOnly(base: Root, root: Root, name: string)
    requires IsPrefix(STAGING, name) && root - {name} == base - {name}
    ensures Pruned(base, root)
  {
    forall other | !IsPrefix(STAGING, other)
      ensures (other in root <==> other in base) && (other in base ==> root[other] == base[other])
    {
      assert other in root <==> other in root - {name};
      assert other in base <==> other in base - {name};
    }
  }

  ghost predicate PrunedHistory(before: seq<Image>, after: seq<Image>, base: Image, image: Image) {
    && |before| <= |after| && after[..|before|] == before
    && (forall k :: |before| <= k < |after| ==> after[k].work == base.work && Pruned(base.root, after[k].root))
    && image.work == base.work && Pruned(base.root, image.root)
  }

  lemma PruneStep(h0: seq<Image>, h1: seq<Image>, h2: seq<Image>, base: Image, mid: Image, image: Image, name: string)
    requires PrunedHistory(h0, h1, base, mid) && IsPrefix(STAGING, name)
    requires Confined(h1, h2, mid, InRoot(name)) && OnlyAt(mid, image, InRoot(name))
    ensures PrunedHistory(h0, h2, base, image)
  {
    assert h2[..|h0|] == h2[..|h1|][..|h0|];
    forall k | |h0| <= k < |h2| ensures h2[k].work == base.work && Pruned(base.root, h2[k].root) {
      if k < |h1| {
        assert h2[k] == h2[..|h1|][k] == h1[k];
      } else {
        StagingOnly(mid.root, h2[k].root, name);
      }
    }
    StagingOnly(mid.root, image.root, name);
  }

  // ------------------------------------------------- when a commit goes well

  /** One commit under `id`: `mid` has the folder in place, `image` may be any later one. */
  ghost predicate Commits(id: string, base: Image, mid: Image, image: Image, committed: State) {
    && Sound(base.root) && committed.id == id && committed.version == CURRENT_SCHEMA_VERSION
    && Renamed(base, mid, committed) && Pointing(mid, image, id)
  }

  /** Before `latest` names it and after, the commit is atomic; once named it loads, and the
      next cleanup leaves it alone. */
  ghost predicate GoesWell(base: Image, mid: Image, image: Image, committed: State) {
    && Atomic(base, mid, committed) && Atomic(base, image, committed)
    && (image.root == Pointed(mid.root, committed.id) ==>
          Lookup(image.root) == Loaded(committed) && Lookup(Cleaned(image.root)) == Loaded(committed))
  }

  ghost predicate PlainFor(committed: State, base: Image) {
    PlainWork(Wanted(committed.registry, committed.roots), base.work)
  }

  /** A published state loads exactly when its ID has no surrounding white space, is not
      `latest`, and no wanted workspace has a top-level name of white space only. */
  lemma LoadsExactlyWhen(base: Image, mid: Image, image: Image, committed: State)
    requires ValidID(committed.id) && Commits(committed.id, base, mid, image, committed)
    requires image.root == Pointed(mid.root, committed.id)
    ensures Lookup(image.root) == Loaded(committed) <==>
            Trim(committed.id) == committed.id && committed.id != LATEST && PlainFor(committed, base)
  {
    TrimNewline(committed.id);
  }

  /** Every commit of plain workspaces under an ID goes well exactly when the ID is usable. */
  lemma UsableExactlyWhenWell(id: string)
    requires ValidID(id)
    ensures Usable(id) <==>
            forall base, mid, image, committed ::
              Commits(id, base, mid, image, committed) && PlainFor(committed, base) ==>
                GoesWell(base, mid, image, committed)
  {
    if Usable(id) {
      forall base, mid, image, committed | Commits(id, base, mid, image, committed) && PlainFor(committed, base)
        ensures GoesWell(base, mid, image, committed)
      {
        UsableGoesWell(base, mid, image, committed);
      }
    } else {
      var base, mid, committed := FirstCommit(id);
      if id == LATEST {
        assert Commits(id, base, mid, mid, committed) && !GoesWell(base, mid, mid, committed);
      } else {
        UnusableGoesWrong(id, base, mid, committed);
      }
    }
  }

  lemma UsableGoesWell(base: Image, mid: Image, image: Image, committed: State)
    requires Usable(committed.id) && Commits(committed.id, base, mid, image, committed) && PlainFor(committed, base)
    ensures GoesWell(base, mid, image, committed)
  {
    WhilePointing(base, mid, mid, committed);
    WhilePointing(base, mid, image, committed);
    if image.root == Pointed(mid.root, committed.id) {
      PrunedLookup(image.root, Cleaned(image.root));
    }
  }

  /** The first commit of a run, of no workspace at all. */
  lemma FirstCommit(id: string) returns (base: Image, mid: Image, committed: State)
    ensures base == Image(map[], map[]) && committed.id == id && mid.root.Keys == {id}
    ensures Commits(id, base, mid, mid, committed) && PlainFor(committed, base)
  {
    committed := State(CURRENT_SCHEMA_VERSION, id, [], UnitState(Started, Document("")), [], []);
    base := Image(map[], map[]);
    var folder: Tree := map[MANIFEST := File(ManifestDoc(committed, Sha(StateDoc(committed))))];
    mid := Image(map[id := Folder(folder)], map[]);
    assert mid.root - {id} == base.root;
  }

  /** Named `latest`, the folder itself takes the place of `latest`: a run without
      checkpoints turns unreadable... */
  lemma LatestAsIDBreaks() returns (base: Image, mid: Image, committed: State)
    ensures Commits(LATEST, base, mid, mid, committed) && PlainFor(committed, base)
    ensures Lookup(base.root) == NotExist && Lookup(mid.root) == Broken
  {
    base, mid, committed := FirstCommit(LATEST);
  }

  /** ...with surrounding white space, the checkpoint is published but never read back... */
  lemma SpacedIDNeverLoads(base: Image, mid: Image, image: Image, committed: State)
    requires ValidID(committed.id) && Trim(committed.id) != committed.id
    requires Commits(committed.id, base, mid, image, committed) && image.root == Pointed(mid.root, committed.id)
    ensures Lookup(image.root) != Loaded(committed)
  {
    LoadsExactlyWhen(base, mid, image, committed);
  }

  /** ...and under a staging name the next cleanup removes it. */
  lemma StagingIDIsSwept(root: Root, state: State)
    requires Lookup(root) == Loaded(state) && IsPrefix(STAGING, state.id)
    ensures Lookup(Cleaned(root)) == NotExist
  {
  }

  lemma UnusableGoesWrong(id: string, base: Image, mid: Image, committed: State)
    requires ValidID(id) && !Usable(id) && id != LATEST && Commits(id, base, mid, mid, committed)
    ensures exists image :: Commits(id, base, mid, image, committed) && !GoesWell(base, mid, image, committed)
  {
    var image := mid.(root := Pointed(mid.root, id));
    assert Commits(id, base, mid, image, committed);
    if Lookup(image.root) == Loaded(committed) {
      LoadsExactlyWhen(base, mid, image, committed);
      StagingIDIsSwept(image.root, committed);
    }
  }

  /** A workspace whose only file is named by one space. */
  const SPACE_TREE: Tree := map[[" "] := File(Bytes("notes"))]

  /** Committing that workspace loses whatever checkpoint the run had: the new one is named by
      `latest` and does not load. */
  lemma SpaceNameSpoils(base: Image, id: string) returns (mid: Image, image: Image, committed: State)
    requires Sound(base.root) && Usable(id) && id !in base.root && base.work == map["w" := SPACE_TREE]
    ensures ClosedWork(base.work) && Commits(id, base, mid, image, committed)
    ensures committed.roots == [At("w", 0)] && Published(base, image, committed) && Lookup(image.root) == Broken
  {
    var entries := [CopiedFile([" "], false, Sha(Bytes("notes")))];
    var copies := [WorkspaceCopy(At("w", 0), ArchiveName(0), entries)];
    committed := State(CURRENT_SCHEMA_VERSION, id, [], UnitState(Started, Document("")), [At("w", 0)], copies);
    var folder: Tree := map[ArchiveName(0) + [" "] := File(Bytes("notes")),
                            MANIFEST := File(ManifestDoc(committed, Sha(StateDoc(committed))))];
    mid := base.(root := base.root[id := Folder(folder)]);
    image := mid.(root := Pointed(mid.root, id));
    SpaceCopy(copies, base.work, folder);
    PutAndRemoved(base.root, id, Folder(folder));
    OncePublished(base, image, committed);
  }

  lemma PutAndRemoved(root: Root, name: string, entry: RootEntry)
    requires name !in root
    ensures root[name := entry] - {name} == root
  {
  }

  lemma SpaceCopy(copies: seq<WorkspaceCopy>, work: map<string, Tree>, folder: Tree)
    requires copies == [WorkspaceCopy(At("w", 0), ArchiveName(0), [CopiedFile([" "], false, Sha(Bytes("notes")))])]
    requires work == map["w" := SPACE_TREE]
    ensures ClosedWork(work) && Captures(copies, work) && CopiedPaths(copies) == {At("w", 0)}
    ensures !PlainWork(CopiedPaths(copies), work) && VerifyWorkspaces(folder, copies) == Bad
  {
    SpaceEntries(copies[0].entries);
    assert copies[0].path == At("w", 0) && At("w", 0) in CopiedPaths(copies);
    hide Describes, Plain, Closed, ValidRel;
    assert ValidRel(ArchiveName(0)) by {
      ValidArchive(0);
    }
    assert VerifyEntries(folder, ArchiveName(0), copies[0].entries) == Bad;
  }

  lemma ValidArchive(index: nat)
    ensures ValidRel(ArchiveName(index))
  {
  }

  lemma SpaceEntries(entries: seq<CopiedFile>)
    requires entries == [CopiedFile([" "], false, Sha(Bytes("notes")))]
    ensures Closed(SPACE_TREE) && Describes(entries, SPACE_TREE) && !Plain(SPACE_TREE) && !ValidRel(entries[0].path)
  {
    assert entries[0].path == [" "] && [" "] in Paths(entries);
    assert Blank(" ") && [" "] in SPACE_TREE;
  }

  /** A workspace in the middle of a restore: part of `tree`, with `done` in place. */
  ghost predicate Restoring(done: seq<CopiedFile>, current: Tree, tree: Tree) {
    && (forall p :: p in current ==> p in tree && current[p] == tree[p])
    && Paths(done) <= current.Keys
  }

  lemma {:induction false} ParentsInTree(tree: Tree, rel: Rel, p: Rel)
    requires Closed(tree) && rel in tree && p != [] && p <= rel
    ensures p in tree && (p != rel ==> tree[p] == Dir)
    decreases |rel|
  {
    if p != rel {
      var parent := rel[..|rel| - 1];
      assert p <= parent;
      ParentsInTree(tree, parent, p);
    }
  }

  lemma DescribedMatch(entries: seq<CopiedFile>, tree: Tree)
    requires Describes(entries, tree)
    ensures forall i :: 0 <= i < |entries| ==> Matches(entries[i], tree)
  {
  }

  lemma RestoredIsTree(entries: seq<CopiedFile>, current: Tree, tree: Tree)
    requires Describes(entries, tree) && Restoring(entries, current, tree)
    ensures current == tree
  {
    assert current.Keys == tree.Keys;
  }

  lemma RestoringStep(done: seq<CopiedFile>, e: CopiedFile, before: Tree, after: Tree, tree: Tree)
    requires Closed(tree) && Matches(e, tree) && Restoring(done, before, tree)
    requires TouchedAt(before, after, e.path)
    requires e.path in after && Matches(e, after)
    ensures Restoring(done + [e], after, tree)
  {
    PathsAppend(done, e);
    forall p | p in after ensures p in tree && after[p] == tree[p] {
      if p !in before && p != e.path {
        ParentsInTree(tree, e.path, p);
      }
    }
  }

  /** The latest checkpoint records exactly `tree` for workspace `dir`, and nothing else. */
  ghost predicate Recorded(root: Root, dir: string, tree: Tree) {
    && Lookup(root).Loaded? && Closed(tree)
    && var state := Lookup(root).state;
       && Portable(state.registry, dir) && state.workspaces != []
       && forall i :: 0 <= i < |state.workspaces| ==>
            state.workspaces[i].path.dir == dir && Describes(state.workspaces[i].entries, tree)
  }

  lemma LookupGood(root: Root)
    requires Lookup(root).Loaded?
    ensures var state := Lookup(root).state;
            && state.id in root && root[state.id].Folder?
            && forall i :: 0 <= i < |state.workspaces| ==>
                 VerifyEntries(root[state.id].tree, state.workspaces[i].archive, state.workspaces[i].entries).Good?
  {
    var state := Lookup(root).state;
    VerifyWorkspacesGood(root[state.id].tree, state.workspaces);
  }

  /** `after` continues `before` without a change to the checkpoints directory. */
  ghost predicate Continues(before: seq<Image>, after: seq<Image>, root: Root) {
    && |before| <= |after| && after[..|before|] == before
    && forall k :: |before| <= k < |after| ==> after[k].root == root
  }

  lemma ContinuesTransitive(h0: seq<Image>, h1: seq<Image>, h2: seq<Image>, root: Root, mid: Image, dir: string)
    requires Continues(h0, h1, root) && mid.root == root && Confined(h1, h2, mid, Work(dir))
    ensures Continues(h0, h2, root)
  {
    assert h2[..|h0|] == h2[..|h1|][..|h0|];
    forall k | |h0| <= k < |h2| ensures h2[k].root == root {
      if k < |h1| {
        assert h2[k] == h2[..|h1|][k] == h1[k];
      }
    }
  }

  class Store {
    const fs: FileSystem

    constructor (fs: FileSystem)
      ensures this.fs == fs
    {
      this.fs := fs;
    }

    // ---------------------------------------------------------------- commit

    /** One visit of the walk in `copyWorkspace`. */
    method CopyOne(stage: string, target: Rel, rel: Rel, node: Node) returns (entry: CopiedFile, ok: bool)
      requires fs.Valid() && target != []
      modifies fs
      ensures fs.Valid() && Confined(old(fs.history), fs.history, old(fs.image), InRoot(stage))
      ensures OnlyAt(old(fs.image), fs.image, InRoot(stage))
      ensures TouchedAt(TreeAt(old(fs.image), InRoot(stage)), TreeAt(fs.image, InRoot(stage)), target)
      ensures entry.path == rel && Matches(entry, map[rel := node])
      ensures ok && node.File? ==>
                target in TreeAt(fs.image, InRoot(stage)) && TreeAt(fs.image, InRoot(stage))[target] == node
    {
      match node {
        case Dir =>
          ok := fs.MakeDirs(InRoot(stage), target);
          entry := CopiedFile(rel, true, NoSum);
        case File(data) =>
          ok := fs.WriteFile(InRoot(stage), target, data);
          entry := CopiedFile(rel, false, Sha(data));
      }
    }

    /** `copyWorkspace`: archives one workspace tree, in whatever order the walk visits it. */
    method CopyWorkspace(dir: string, stage: string, archive: Rel) returns (entries: seq<CopiedFile>, ok: bool)
      requires fs.Valid() && archive != []
      requires forall p :: p in TreeAt(fs.image, InRoot(stage)) ==> !(archive <= p)
      modifies fs
      ensures fs.Valid() && Confined(old(fs.history), fs.history, old(fs.image), InRoot(stage))
      ensures OnlyAt(old(fs.image), fs.image, InRoot(stage))
      ensures GrewUnder(TreeAt(old(fs.image), InRoot(stage)), TreeAt(fs.image, InRoot(stage)), archive)
      ensures ok ==> dir in fs.image.work && Describes(entries, fs.image.work[dir])
                     && Archived(TreeAt(fs.image, InRoot(stage)), archive, fs.image.work[dir])
    {
      entries := [];
      if dir !in fs.image.work {
        return entries, false;
      }
      var source := fs.image.work[dir];
      ghost var start := TreeAt(fs.image, InRoot(stage));
      var todo := source.Keys;
      while todo != {}
        invariant fs.Valid() && Confined(old(fs.history), fs.history, old(fs.image), InRoot(stage))
        invariant OnlyAt(old(fs.image), fs.image, InRoot(stage))
        invariant GrewUnder(start, TreeAt(fs.image, InRoot(stage)), archive)
        invariant todo <= source.Keys && Paths(entries) == source.Keys - todo
        invariant forall i :: 0 <= i < |entries| ==> Matches(entries[i], source)
        invariant Archived(TreeAt(fs.image, InRoot(stage)), archive, source - todo)
        decreases todo
      {
        var rel :| rel in todo;
        var entry;
        ghost var before := TreeAt(fs.image, InRoot(stage));
        ghost var h1, mid := fs.history, fs.image;
        entry, ok := CopyOne(stage, archive + rel, rel, source[rel]);
        ConfinedTransitive(old(fs.history), h1, fs.history, old(fs.image), mid, InRoot(stage));
        CopyStep(start, before, TreeAt(fs.image, InRoot(stage)), archive, rel);
        if !ok {
          return entries, false;
        }
        ArchivedStep(before, TreeAt(fs.image, InRoot(stage)), archive, source, todo, rel);
        PathsAppend(entries, entry);
        entries := entries + [entry];
        todo := todo - {rel};
      }
      assert source - todo == source;
      ok := true;
    }

    /** `snapshotWorkspaces`: one archive per distinct workspace path. */
    method SnapshotWorkspaces(stage: string, registry: seq<SavedEntry>, roots: seq<Workspace>)
      returns (copies: seq<WorkspaceCopy>, ok: bool)
      requires fs.Valid() && TreeAt(fs.image, InRoot(stage)) == map[]
      modifies fs
      ensures fs.Valid() && Confined(old(fs.history), fs.history, old(fs.image), InRoot(stage))
      ensures OnlyAt(old(fs.image), fs.image, InRoot(stage))
      ensures MANIFEST !in TreeAt(fs.image, InRoot(stage))
      ensures ok ==> Captures(copies, fs.image.work) && CopiedPaths(copies) == Wanted(registry, roots)
                     && AllArchived(TreeAt(fs.image, InRoot(stage)), copies, fs.image.work)
    {
      hide Describes, Archived, Captures, AllArchived, OnlyArchives, GrewUnder, CopiedPaths, TreeAt, Wanted;
      copies := [];
      NothingCopied(fs.image.work);
      var todo := Wanted(registry, roots);
      if exists w :: w in todo && Blank(w.dir) {
        return copies, false;
      }
      while todo != {}
        invariant fs.Valid() && Confined(old(fs.history), fs.history, old(fs.image), InRoot(stage))
        invariant OnlyAt(old(fs.image), fs.image, InRoot(stage))
        invariant OnlyArchives(TreeAt(fs.image, InRoot(stage)), |copies|)
        invariant todo <= Wanted(registry, roots) && CopiedPaths(copies) == Wanted(registry, roots) - todo
        invariant Captures(copies, fs.image.work)
        invariant AllArchived(TreeAt(fs.image, InRoot(stage)), copies, fs.image.work)
        decreases todo
      {
        var path :| path in todo;
        var archive := ArchiveName(|copies|);
        ghost var before := TreeAt(fs.image, InRoot(stage));
        forall p | p in before ensures !(archive <= p) {
          ArchiveIsNew(before, |copies|, p);
        }
        ghost var h1, mid := fs.history, fs.image;
        var entries;
        entries, ok := CopyWorkspace(path.dir, stage, archive);
        ConfinedTransitive(old(fs.history), h1, fs.history, old(fs.image), mid, InRoot(stage));
        OnlyArchivesStep(before, TreeAt(fs.image, InRoot(stage)), |copies|);
        NoManifestYet(TreeAt(fs.image, InRoot(stage)), |copies| + 1);
        if !ok {
          return copies, false;
        }
        var copy := WorkspaceCopy(path, archive, entries);
        CopiesStep(before, TreeAt(fs.image, InRoot(stage)), copies, copy, fs.image.work);
        TodoStep(Wanted(registry, roots), todo, path);
        copies := copies + [copy];
        todo := todo - {path};
      }
      NoManifestYet(TreeAt(fs.image, InRoot(stage)), |copies|);
      ok := true;
    }

    /** Fills a new staging folder: archives first, the manifest last. */
    method FillStage(state: State, stage: string) returns (staged: State, ok: bool)
      requires fs.Valid() && ClosedWork(fs.image.work) && stage !in fs.image.root
      modifies fs
      ensures fs.Valid() && Confined(old(fs.history), fs.history, old(fs.image), InRoot(stage))
      ensures OnlyAt(old(fs.image), fs.image, InRoot(stage))
      ensures staged == state.(workspaces := staged.workspaces)
      ensures ok ==> Captures(staged.workspaces, fs.image.work)
                     && CopiedPaths(staged.workspaces) == Wanted(state.registry, state.roots)
                     && Complete(fs.image.root, stage, staged, fs.image.work)
    {
      staged := state;
      ok := *;
      if !ok {
        return;
      }
      fs.Step(WithTree(fs.image, InRoot(stage), map[]));
      ghost var h1, mid := fs.history, fs.image;
      var copies;
      copies, ok := SnapshotWorkspaces(stage, state.registry, state.roots);
      ConfinedTransitive(old(fs.history), h1, fs.history, old(fs.image), mid, InRoot(stage));
      if !ok {
        return;
      }
      staged := state.(workspaces := copies);
      ghost var folder := TreeAt(fs.image, InRoot(stage));
      ghost var h2, late := fs.history, fs.image;
      ok := fs.WriteFile(InRoot(stage), MANIFEST, ManifestDoc(staged, Sha(StateDoc(staged))));
      ConfinedTransitive(old(fs.history), h2, fs.history, old(fs.image), late, InRoot(stage));
      if ok {
        StagedVerifies(folder, TreeAt(fs.image, InRoot(stage)), copies, fs.image.work);
      }
    }

    /** `publishLatest`: writes the name beside `latest` and renames it into place. */
    method PublishLatest(id: string) returns (ok: bool)
      requires fs.Valid()
      modifies fs
      ensures fs.Valid() && |old(fs.history)| <= |fs.history| && fs.history[..|old(fs.history)|] == old(fs.history)
      ensures |old(fs.history)| == |fs.history| ==> fs.image == old(fs.image)
      ensures forall k :: |old(fs.history)| <= k < |fs.history| ==> Pointing(old(fs.image), fs.history[k], id)
      ensures Pointing(old(fs.image), fs.image, id)
      ensures ok ==> fs.image.root == Pointed(old(fs.image).root, id)
    {
      ok := *;
      if !ok {
        return;
      }
      var root := fs.image.root;
      UnusedName(root.Keys, TEMPORARY);
      var temp :| IsPrefix(TEMPORARY, temp) && temp !in root;  // os.CreateTemp
      assert temp[0] != LATEST[0];
      var torn: Data := *;
      fs.Step(fs.image.(root := root[temp := Single(torn)]));
      ok := *;
      if ok {
        fs.Step(fs.image.(root := root[temp := Single(Bytes(id + "\n"))]));
        ok := *;
      }
      if ok && !(LATEST in root && root[LATEST].Folder?) {
        assert root[temp := Single(Bytes(id + "\n"))] - {temp} == root;
        fs.Step(fs.image.(root := Pointed(root, id)));
        ok := *;  // the directory sync can still fail
        return;
      }
      ok := false;
      var removed: bool := *;
      if removed {
        fs.Step(fs.image.(root := root));
      }
    }

    /** The first half of `Commit`: fills the staging folder and renames it to its ID. */
    method PublishFolder(state: State, stage: string) returns (ok: bool, committed: State)
      requires fs.Valid() && ClosedWork(fs.image.work) && stage !in fs.image.root && stage != LATEST
      modifies fs
      ensures fs.Valid() && |old(fs.history)| <= |fs.history| && fs.history[..|old(fs.history)|] == old(fs.history)
      ensures forall k :: |old(fs.history)| <= k < |fs.history| ==>
                Staging(old(fs.image), fs.history[k], stage, committed)
      ensures Staging(old(fs.image), fs.image, stage, committed)
      ensures committed == state.(workspaces := committed.workspaces)
      ensures ok ==> fs.image.root.Keys == old(fs.image).root.Keys + {state.id}
                     && Renamed(old(fs.image), fs.image, committed)
    {
      hide Renamed, Complete, Captures, PlainWork;
      ghost var base, h0 := fs.image, fs.history;
      committed, ok := FillStage(state, stage);
      ghost var h1, filled := fs.history, fs.image;
      var id := state.id;
      var renames: bool := *;
      if !ok || id in fs.image.root || id == "." || id == ".." || !renames {
        var removed := fs.RemoveFolder(stage);
        ConfinedTransitive(h0, h1, fs.history, base, filled, InRoot(stage));
        return false, committed;
      }
      var folder := fs.image.root[stage];
      fs.Step(fs.image.(root := (fs.image.root - {stage})[id := folder]));
      RenamedIntoPlace(base, filled, fs.image, stage, committed);
    }

    /** `Commit`.  Whatever fails, and wherever a crash falls, nothing shows or `committed` is
        published; `AtomicExactlyWhenPlain` says when that is crash atomicity. */
    method Commit(state: State) returns (ok: bool, ghost committed: State)
      requires fs.Valid() && ClosedWork(fs.image.work)
      modifies fs
      ensures fs.Valid() && |old(fs.history)| <= |fs.history| && fs.history[..|old(fs.history)|] == old(fs.history)
      ensures forall k :: |old(fs.history)| <= k < |fs.history| ==> fs.history[k].work == old(fs.image).work
      ensures committed == state.(version := CURRENT_SCHEMA_VERSION, id := committed.id,
                                  workspaces := committed.workspaces)
      ensures if state.id == "" then Generated(committed.id) else committed.id == state.id
      ensures Steady(old(fs.image).root) && Usable(committed.id) ==>
                forall k :: |old(fs.history)| <= k < |fs.history| ==>
                  OldOrNew(old(fs.image), fs.history[k], committed)
      ensures Usable(committed.id) && ok ==> Published(old(fs.image), fs.image, committed)
      ensures ok ==> state.version in {0, CURRENT_SCHEMA_VERSION}
    {
      var id := state.id;
      if id == "" {
        SomeGenerated();
        id :| Generated(id);  // newCheckpointID
      }
      committed := state.(version := CURRENT_SCHEMA_VERSION, id := id);
      if (state.version != 0 && state.version != CURRENT_SCHEMA_VERSION) || !ValidID(id) {
        return false, committed;
      }
      ghost var base, h0 := fs.image, fs.history;
      UnusedName(base.root.Keys, STAGING);
      var stage :| IsPrefix(STAGING, stage) && stage !in fs.image.root;  // os.MkdirTemp
      assert stage[0] != LATEST[0];
      var staged;
      ok, staged := PublishFolder(state.(version := CURRENT_SCHEMA_VERSION, id := id), stage);
      committed := staged;
      ghost var h1, mid := fs.history, fs.image;
      if ok {
        ok := *;  // the directory sync
        if ok {
          ok := PublishLatest(id);
          if Usable(id) {
            WhilePointing(base, mid, fs.image, committed);
          }
        }
      }
      CommitHistory(base, mid, h0, h1, fs.history, stage, committed);
    }

    // ------------------------------------------------------- load and cleanup

    /** `Load`, check by check. */
    method Load() returns (result: LoadResult)
      ensures result == Lookup(fs.image.root)
    {
      var root := fs.image.root;
      if LATEST !in root {
        return NotExist;
      }
      match root[LATEST] {
        case Single(Bytes(text)) =>
          var id := Trim(text);
          if !ValidID(id) {
            return Broken;
          }
          if id !in root {
            return NotExist;
          }
          if root[id].Single? {
            return Broken;
          }
          var folder := root[id].tree;
          if MANIFEST !in folder {
            return NotExist;
          }
          match folder[MANIFEST] {
            case File(ManifestDoc(state, sum)) =>
              if sum != Sha(StateDoc(state)) || state.version != CURRENT_SCHEMA_VERSION || state.id != id {
                return Broken;
              }
              var verified := Verify(folder, state.workspaces);
              match verified {
                case Good => return Loaded(state);
                case Missing => return NotExist;
                case Bad => return Broken;
              }
            case _ => return Broken;
          }
        case _ => return Broken;
      }
    }

    /** `verifyWorkspaces`: the first failing entry decides. */
    method Verify(folder: Tree, workspaces: seq<WorkspaceCopy>) returns (result: Check)
      ensures result == VerifyWorkspaces(folder, workspaces)
    {
      for i := 0 to |workspaces|
        invariant VerifyWorkspaces(folder, workspaces) == VerifyWorkspaces(folder, workspaces[i..])
      {
        var archive, entries := workspaces[i].archive, workspaces[i].entries;
        if !ValidRel(archive) {
          return Bad;
        }
        for j := 0 to |entries|
          invariant VerifyEntries(folder, archive, entries) == VerifyEntries(folder, archive, entries[j..])
        {
          var e := entries[j];
          if !ValidRel(e.path) {
            return Bad;
          }
          if !e.directory {
            if archive + e.path !in folder {
              return Missing;
            }
            if folder[archive + e.path].Dir? || Sha(folder[archive + e.path].data) != e.sum {
              return Bad;
            }
          }
        }
      }
      return Good;
    }

    /** `cleanupStaging`: drops interrupted staging folders without touching what `Load` sees. */
    method CleanupStaging() returns (ok: bool)
      requires fs.Valid()
      modifies fs
      ensures fs.Valid() && PrunedHistory(old(fs.history), fs.history, old(fs.image), fs.image)
      ensures ok ==> fs.image.root == Cleaned(old(fs.image).root)
    {
      ghost var base, h0 := fs.image, fs.history;
      var todo := set name | name in fs.image.root && IsPrefix(STAGING, name) && fs.image.root[name].Folder?;
      while todo != {}
        invariant fs.Valid() && PrunedHistory(h0, fs.history, base, fs.image)
        invariant forall name :: name in todo ==> IsPrefix(STAGING, name) && name !in Cleaned(base.root)
        invariant CleanedBut(base.root, todo, fs.image.root)
        decreases todo
      {
        var name :| name in todo;
        ghost var mid, h1 := fs.image, fs.history;
        ok := fs.RemoveFolder(name);
        PruneStep(h0, h1, fs.history, base, mid, fs.image, name);
        if !ok {
          return;
        }
        CleanedOne(base.root, todo, mid.root, fs.image.root, name);
        todo := todo - {name};
      }
      ok := true;
    }

    // --------------------------------------------------------------- restore

    /** One entry of `restoreWorkspace`. */
    method CopyBack(dir: string, e: CopiedFile, folder: Tree, archive: Rel) returns (ok: bool)
      requires fs.Valid() && Stored(folder, archive, e)
      modifies fs
      ensures fs.Valid() && Confined(old(fs.history), fs.history, old(fs.image), Work(dir))
      ensures OnlyAt(old(fs.image), fs.image, Work(dir))
      ensures TouchedAt(TreeAt(old(fs.image), Work(dir)), TreeAt(fs.image, Work(dir)), e.path)
      ensures ok && (e.directory ==> e.sum == NoSum) ==>
                e.path in TreeAt(fs.image, Work(dir)) && Matches(e, TreeAt(fs.image, Work(dir)))
    {
      if e.directory {
        ok := fs.MakeDirs(Work(dir), e.path);
        assert e.path[..|e.path|] == e.path;
      } else {
        ok := fs.WriteFile(Work(dir), e.path, folder[archive + e.path].data);
      }
    }

    /** The copying loop of `restoreWorkspace`. */
    method CopyAllBack(dir: string, entries: seq<CopiedFile>, folder: Tree, archive: Rel,
                       ghost tree: Tree, ghost faithful: bool) returns (ok: bool)
      requires fs.Valid() && TreeAt(fs.image, Work(dir)) == map[]
      requires faithful ==> Closed(tree) && forall i :: 0 <= i < |entries| ==> Matches(entries[i], tree)
      requires forall i :: 0 <= i < |entries| ==> Stored(folder, archive, entries[i])
      modifies fs
      ensures fs.Valid() && Confined(old(fs.history), fs.history, old(fs.image), Work(dir))
      ensures OnlyAt(old(fs.image), fs.image, Work(dir))
      ensures ok && faithful ==> Restoring(entries, TreeAt(fs.image, Work(dir)), tree)
    {
      ghost var base, h0 := fs.image, fs.history;
      for i := 0 to |entries|
        invariant fs.Valid() && Confined(h0, fs.history, base, Work(dir)) && OnlyAt(base, fs.image, Work(dir))
        invariant faithful ==> Restoring(entries[..i], TreeAt(fs.image, Work(dir)), tree)
      {
        ghost var before := TreeAt(fs.image, Work(dir));
        ghost var h1, mid := fs.history, fs.image;
        ok := CopyBack(dir, entries[i], folder, archive);
        ConfinedTransitive(h0, h1, fs.history, base, mid, Work(dir));
        if !ok {
          return;
        }
        assert entries[..i + 1] == entries[..i] + [entries[i]];
        if faithful {
          RestoringStep(entries[..i], entries[i], before, TreeAt(fs.image, Work(dir)), tree);
        }
      }
      assert entries[..|entries|] == entries;
      ok := true;
    }

    /** `restoreWorkspace`: clears one workspace and copies the archive back. */
    method RestoreTree(name: string, copy: WorkspaceCopy, ghost tree: Tree) returns (ok: bool)
      requires fs.Valid() && name in fs.image.root && fs.image.root[name].Folder?
      requires VerifyEntries(fs.image.root[name].tree, copy.archive, copy.entries).Good?
      modifies fs
      ensures fs.Valid() && Confined(old(fs.history), fs.history, old(fs.image), Work(copy.path.dir))
      ensures OnlyAt(old(fs.image), fs.image, Work(copy.path.dir))
      ensures ok && Closed(tree) && Describes(copy.entries, tree) ==> TreeAt(fs.image, Work(copy.path.dir)) == tree
    {
      hide Describes, Closed, Restoring, Stored;
      var dir := copy.path.dir;
      ok := *;
      if !ok || Blank(dir) || !ValidRel(copy.archive) {
        return false;
      }
      if dir !in fs.image.work {
        fs.Step(WithTree(fs.image, Work(dir), map[]));
      }
      ghost var h1, mid := fs.history, fs.image;
      ok := fs.Clear(Work(dir));
      ConfinedTransitive(old(fs.history), h1, fs.history, old(fs.image), mid, Work(dir));
      if !ok {
        return;
      }
      ghost var h2, cleared := fs.history, fs.image;
      ghost var faithful := Closed(tree) && Describes(copy.entries, tree);
      VerifyEntriesGood(fs.image.root[name].tree, copy.archive, copy.entries);
      if faithful {
        DescribedMatch(copy.entries, tree);
      }
      ok := CopyAllBack(dir, copy.entries, fs.image.root[name].tree, copy.archive, tree, faithful);
      ConfinedTransitive(old(fs.history), h2, fs.history, old(fs.image), cleared, Work(dir));
      if ok && faithful {
        RestoredIsTree(copy.entries, TreeAt(fs.image, Work(dir)), tree);
      }
    }

    /** `RestoreWorkspace`: puts the trees and the registry slice of the latest checkpoint
        back.  `dir` and `tree` name the workspace and the tree it recorded. */
    method RestoreWorkspace(registry: ArtifactRegistry, ghost dir: string, ghost tree: Tree) returns (ok: bool)
      requires fs.Valid() && Consistent(registry.Value())
      modifies fs, registry
      ensures fs.Valid() && |old(fs.history)| <= |fs.history| && fs.history[..|old(fs.history)|] == old(fs.history)
      ensures forall k :: |old(fs.history)| <= k < |fs.history| ==> fs.history[k].root == old(fs.image).root
      ensures fs.image.root == old(fs.image).root
      ensures ok ==> Lookup(fs.image.root).Loaded?
      ensures Recorded(old(fs.image).root, dir, tree) ==>
                Confined(old(fs.history), fs.history, old(fs.image), Work(dir))
      ensures ok && Recorded(old(fs.image).root, dir, tree) ==>
                && Consistent(registry.Value())
                && TreeAt(fs.image, Work(dir)) == tree
                && SnapshotOf(registry.Value(), At(dir, 0)) == Lookup(fs.image.root).state.registry
    {
      ghost var base, h0 := fs.image, fs.history;
      ghost var faithful := Recorded(base.root, dir, tree);
      var loaded := Load();
      if !loaded.Loaded? {
        return false;
      }
      var state := loaded.state;
      LookupGood(fs.image.root);
      for i := 0 to |state.workspaces|
        invariant fs.Valid() && Continues(h0, fs.history, base.root) && fs.image.root == base.root
        invariant faithful ==> Confined(h0, fs.history, base, Work(dir)) && OnlyAt(base, fs.image, Work(dir))
        invariant Synced(registry.Value()) && (faithful ==> Consistent(registry.Value()))
        invariant faithful && i > 0 ==> TreeAt(fs.image, Work(dir)) == tree
        invariant faithful && i > 0 ==> SnapshotOf(registry.Value(), At(dir, 0)) == state.registry
      {
        var copy := state.workspaces[i];
        ghost var h1, mid := fs.history, fs.image;
        ok := RestoreTree(state.id, copy, tree);
        ContinuesTransitive(h0, h1, fs.history, base.root, mid, copy.path.dir);
        if faithful {
          ConfinedTransitive(h0, h1, fs.history, base, mid, Work(dir));
        }
        if !ok {
          return;
        }
        ghost var before := registry.Value();
        ok := registry.RestoreWorkspace(copy.path, state.registry);
        if !ok {
          return;
        }
        if faithful {
          PortableRestore(before, copy.path, state.registry);
        }
      }
      ok := true;
    }
  }
}
