/** The run-scoped artifact registry (internal/artifact/registry.go): opaque IDs, their
    registration order and the path index, together with the workspace snapshots that a
    unit checkpoint carries.  Paths are taken in canonical form and two workspaces are the
    same exactly when their cleaned paths are; IDs handed in as `newID` stand for
    `uuid.NewString`. */
module Registry {
  import opened Options
  import opened Unicode

  /** A workspace as a caller spells it: the cleaned path, and which spelling of it. */
  datatype Workspace = At(dir: string, spelling: nat)

  function Clean(w: Workspace): Workspace {
    At(w.dir, 0)
  }

  datatype Kind = Artifact | ArtifactFile
  datatype FileType = RegularFile | Directory
  datatype Purpose = Evidence | Output
  datatype Record = Record(id: string, name: string, path: string, description: string,
                           kind: Kind, fileType: FileType, purpose: Purpose, source: string)
  datatype Entry = Entry(record: Record, workspace: Workspace, directoryRoot: string,
                         relativePath: string, purposes: set<Purpose>)
  datatype SavedEntry = SavedEntry(record: Record, workspace: Workspace, directoryRoot: string,
                                   relativePath: string, purposes: seq<Purpose>)

  /** The `children` index is filled under two key formats: listing writes parent ID and
      relative path, restoring writes directory root and relative path. */
  datatype ChildKey = ByParent(parent: string, rel: string) | ByRoot(dir: string, root: string, rel: string)

  type PathKey = (string, string)

  datatype Index = Index(entries: map<string, Entry>, order: seq<string>,
                         paths: map<PathKey, string>, children: map<ChildKey, string>)

  const EMPTY := Index(map[], [], map[], map[])

  function KeyOf(e: Entry): PathKey {
    (e.workspace.dir, e.record.path)
  }

  function Join(root: string, rel: string): string {
    root + "/" + rel
  }

  /** The declared purposes in the order `slices.Sort` gives them. */
  function Sorted(purposes: set<Purpose>): seq<Purpose> {
    (if Evidence in purposes then [Evidence] else []) + (if Output in purposes then [Output] else [])
  }

  function Save(e: Entry): SavedEntry {
    SavedEntry(e.record, e.workspace, e.directoryRoot, e.relativePath, Sorted(e.purposes))
  }

  function Unsave(s: SavedEntry): Entry {
    var saved := set p | p in s.purposes;
    Entry(s.record, s.workspace, s.directoryRoot, s.relativePath,
          if saved == {} then {s.record.purpose} else saved)
  }

  predicate Distinct(ids: seq<string>) {
    forall i, j :: 0 <= i < j < |ids| ==> ids[i] != ids[j]
  }

  /** The order lists each entry once, and the path index is its inverse. */
  ghost predicate Consistent(ix: Index) {
    && Distinct(ix.order)
    && (forall id :: id in ix.order <==> id in ix.entries)
    && (forall id :: id in ix.entries ==> ix.entries[id].record.id == id && ix.entries[id].purposes != {})
    && (forall id :: id in ix.entries ==>
          KeyOf(ix.entries[id]) in ix.paths && ix.paths[KeyOf(ix.entries[id])] == id)
    && (forall key :: key in ix.paths ==>
          ix.paths[key] in ix.entries && KeyOf(ix.entries[ix.paths[key]]) == key)
  }

  /** The order and the entries name the same IDs. */
  ghost predicate Synced(ix: Index) {
    forall id :: id in ix.order <==> id in ix.entries
  }

  // --------------------------------------------------------------- snapshots

  /** Which workspaces a selection keeps. */
  datatype Scope = Inside(dir: string) | Outside(dir: string)

  predicate Covers(scope: Scope, w: Workspace) {
    match scope
    case Inside(dir) => w.dir == dir
    case Outside(dir) => w.dir != dir
  }

  /** The IDs of `order` whose entry lies in `scope`, in order. */
  function Select(entries: map<string, Entry>, order: seq<string>, scope: Scope): (ids: seq<string>)
    ensures forall id :: id in ids <==> id in order && id in entries && Covers(scope, entries[id].workspace)
    ensures |ids| <= |order|
  {
    if order == [] then [] else
      var n := |order| - 1;
      var rest := Select(entries, order[..n], scope);
      assert order == order[..n] + [order[n]];
      if order[n] in entries && Covers(scope, entries[order[n]].workspace) then rest + [order[n]] else rest
  }

  function SaveAll(entries: map<string, Entry>, ids: seq<string>): (saved: seq<SavedEntry>)
    requires forall id :: id in ids ==> id in entries
    ensures |saved| == |ids|
    ensures forall i :: 0 <= i < |ids| ==> saved[i] == Save(entries[ids[i]])
  {
    seq(|ids|, i requires 0 <= i < |ids| => Save(entries[ids[i]]))
  }

  /** `SnapshotWorkspace`: the entries of one workspace in registration order. */
  function SnapshotOf(ix: Index, w: Workspace): seq<SavedEntry> {
    SaveAll(ix.entries, Select(ix.entries, ix.order, Inside(w.dir)))
  }

  function Ids(saved: seq<SavedEntry>): (ids: seq<string>)
    ensures |ids| == |saved|
    ensures forall i :: 0 <= i < |saved| ==> ids[i] == saved[i].record.id
  {
    seq(|saved|, i requires 0 <= i < |saved| => saved[i].record.id)
  }

  /** `Restore` accepts a snapshot when no ID is blank or repeated. */
  predicate WellFormed(saved: seq<SavedEntry>) {
    && (forall i :: 0 <= i < |saved| ==> !Blank(saved[i].record.id))
    && Distinct(Ids(saved))
  }

  lemma WellFormedGrows(saved: seq<SavedEntry>, i: nat)
    requires i < |saved| && WellFormed(saved[..i])
    ensures Ids(saved[..i + 1]) == Ids(saved[..i]) + [saved[i].record.id]
    ensures WellFormed(saved[..i + 1]) <==> !Blank(saved[i].record.id) && saved[i].record.id !in Ids(saved[..i])
    ensures WellFormed(saved) ==> WellFormed(saved[..i + 1])
  {
    var shorter, longer := saved[..i], saved[..i + 1];
    assert Ids(longer) == Ids(shorter) + [saved[i].record.id];
    if WellFormed(saved) {
      forall j, k | 0 <= j < k < i + 1 ensures Ids(longer)[j] != Ids(longer)[k] {
        assert Ids(saved)[j] != Ids(saved)[k];
      }
    }
    if saved[i].record.id in Ids(shorter) {
      var k :| 0 <= k < i && Ids(shorter)[k] == saved[i].record.id;
      assert Ids(longer)[k] == Ids(longer)[i];
    }
  }

  /** Adds one restored entry, as both `Restore` and `RestoreWorkspace` do. */
  function Admit(ix: Index, e: Entry): Index {
    Index(ix.entries[e.record.id := e], ix.order + [e.record.id], ix.paths[KeyOf(e) := e.record.id],
          if e.directoryRoot != "" && e.relativePath != "" then
            ix.children[ByRoot(e.workspace.dir, e.directoryRoot, e.relativePath) := e.record.id]
          else ix.children)
  }

  function AdmitAll(ix: Index, saved: seq<SavedEntry>): Index {
    if saved == [] then ix
    else Admit(AdmitAll(ix, saved[..|saved| - 1]), Unsave(saved[|saved| - 1]))
  }

  /** The child keys that one dropped entry gives up. */
  function ChildKeysOf(e: Entry): set<ChildKey> {
    if e.directoryRoot != "" && e.relativePath != "" then
      {ByRoot(e.workspace.dir, e.directoryRoot, e.relativePath)}
    else {}
  }

  /** The index without the entries `gone` and without the keys they own. */
  function Without(ix: Index, gone: set<string>): Index
    requires gone <= ix.entries.Keys
  {
    ix.(entries := ix.entries - gone,
        paths := ix.paths - (set id | id in gone :: KeyOf(ix.entries[id])),
        children := ix.children - (set id, key | id in gone && key in ChildKeysOf(ix.entries[id]) :: key))
  }

  /** The IDs of one workspace. */
  function Owned(ix: Index, dir: string): (ids: set<string>)
    ensures ids <= ix.entries.Keys
  {
    set id | id in ix.entries && ix.entries[id].workspace.dir == dir
  }

  /** The index without one workspace. */
  function Emptied(ix: Index, w: Workspace): Index {
    Without(ix, Owned(ix, w.dir)).(order := Select(ix.entries, ix.order, Outside(w.dir)))
  }

  function RestoredIndex(ix: Index, w: Workspace, saved: seq<SavedEntry>): Index {
    AdmitAll(Emptied(ix, w), saved)
  }

  /** When `RestoreWorkspace` succeeds: nothing foreign, nothing malformed, and no ID that
      already belongs to another workspace. */
  predicate Restorable(ix: Index, w: Workspace, saved: seq<SavedEntry>) {
    && (forall i :: 0 <= i < |saved| ==> saved[i].workspace.dir == w.dir)
    && WellFormed(saved)
    && NoneOwnedElsewhere(ix.entries, w, saved)
  }

  predicate NoneOwnedElsewhere(entries: map<string, Entry>, w: Workspace, saved: seq<SavedEntry>) {
    forall i :: 0 <= i < |saved| ==>
      saved[i].record.id in entries ==> entries[saved[i].record.id].workspace.dir == w.dir
  }

  function DropOne(ix: Index, id: string): Index
    requires id in ix.entries
  {
    var e := ix.entries[id];
    ix.(entries := ix.entries - {id}, paths := ix.paths - {KeyOf(e)}, children := ix.children - ChildKeysOf(e))
  }

  /** The deletion sweep over `ids`, step by step. */
  function Swept(ix: Index, ids: seq<string>, dir: string): Index {
    if ids == [] then ix else
      var n := |ids| - 1;
      var before := Swept(ix, ids[..n], dir);
      if ids[n] in before.entries && before.entries[ids[n]].workspace.dir == dir then DropOne(before, ids[n])
      else before
  }

  // ------------------------------------------------------------------ lemmas

  lemma {:induction false} SweptIsWithout(ix: Index, ids: seq<string>, dir: string)
    requires forall id :: id in ids ==> id in ix.entries
    ensures Swept(ix, ids, dir) == Without(ix, set id | id in ids && ix.entries[id].workspace.dir == dir)
  {
    if ids == [] {
      assert Without(ix, {}) == ix;
    } else {
      var n := |ids| - 1;
      assert ids == ids[..n] + [ids[n]];
      SweptIsWithout(ix, ids[..n], dir);
      var gone := set id | id in ids[..n] && ix.entries[id].workspace.dir == dir;
      var all := set id | id in ids && ix.entries[id].workspace.dir == dir;
      if ix.entries[ids[n]].workspace.dir == dir {
        assert all == gone + {ids[n]};
        if ids[n] !in gone {
          WithoutOneMore(ix, gone, ids[n]);
        } else {
          assert all == gone;
        }
      } else {
        assert all == gone;
      }
    }
  }

  /** The sweep changes no entry, and drops only the workspace's. */
  lemma {:induction false} SweptAgrees(ix: Index, ids: seq<string>, dir: string, id: string)
    ensures var swept := Swept(ix, ids, dir);
            && (id in swept.entries ==> id in ix.entries && swept.entries[id] == ix.entries[id])
            && (id in ix.entries && ix.entries[id].workspace.dir != dir ==> id in swept.entries)
  {
    if ids != [] {
      SweptAgrees(ix, ids[..|ids| - 1], dir, id);
    }
  }

  lemma WithoutOneMore(ix: Index, gone: set<string>, id: string)
    requires gone <= ix.entries.Keys && id in ix.entries
    ensures var e := ix.entries[id];
            var before := Without(ix, gone);
            Without(ix, gone + {id}) == before.(entries := before.entries - {id}, paths := before.paths - {KeyOf(e)},
                                                children := before.children - ChildKeysOf(e))
  {
    var e := ix.entries[id];
    var keys := set k | k in gone :: KeyOf(ix.entries[k]);
    assert (set k | k in gone + {id} :: KeyOf(ix.entries[k])) == keys + {KeyOf(e)};
    var kids := set k, key | k in gone && key in ChildKeysOf(ix.entries[k]) :: key;
    assert (set k, key | k in gone + {id} && key in ChildKeysOf(ix.entries[k]) :: key) == kids + ChildKeysOf(e);
    assert ix.entries - (gone + {id}) == (ix.entries - gone) - {id};
    assert ix.paths - (keys + {KeyOf(e)}) == (ix.paths - keys) - {KeyOf(e)};
    assert ix.children - (kids + ChildKeysOf(e)) == (ix.children - kids) - ChildKeysOf(e);
  }

  lemma {:induction false} SelectConcat(entries: map<string, Entry>, a: seq<string>, b: seq<string>, scope: Scope)
    ensures Select(entries, a + b, scope) == Select(entries, a, scope) + Select(entries, b, scope)
  {
    hide Covers;
    if b == [] {
      assert a + b == a;
    } else {
      var n := |b| - 1;
      assert (a + b)[..|a + b| - 1] == a + b[..n] && (a + b)[|a + b| - 1] == b[n];
      SelectConcat(entries, a, b[..n], scope);
      ConcatAssociates(Select(entries, a, scope), Select(entries, b[..n], scope), [b[n]]);
    }
  }

  lemma ConcatAssociates(a: seq<string>, b: seq<string>, c: seq<string>)
    ensures (a + b) + c == a + (b + c)
  {
  }

  /** A selection depends only on the entries its order names. */
  lemma {:induction false} SelectAgrees(e: map<string, Entry>, f: map<string, Entry>, order: seq<string>, scope: Scope)
    requires forall id :: id in order ==> (id in e <==> id in f) && (id in e ==> e[id] == f[id])
    ensures Select(e, order, scope) == Select(f, order, scope)
  {
    if order != [] {
      assert order == order[..|order| - 1] + [order[|order| - 1]];
      SelectAgrees(e, f, order[..|order| - 1], scope);
    }
  }

  lemma {:induction false} SelectAll(entries: map<string, Entry>, order: seq<string>, scope: Scope)
    requires forall id :: id in order ==> id in entries && Covers(scope, entries[id].workspace)
    ensures Select(entries, order, scope) == order
  {
    if order != [] {
      assert order == order[..|order| - 1] + [order[|order| - 1]];
      SelectAll(entries, order[..|order| - 1], scope);
    }
  }

  lemma {:induction false} SelectNone(entries: map<string, Entry>, order: seq<string>, scope: Scope)
    requires forall id :: id in order ==> id !in entries || !Covers(scope, entries[id].workspace)
    ensures Select(entries, order, scope) == []
  {
    if order != [] {
      assert order == order[..|order| - 1] + [order[|order| - 1]];
      SelectNone(entries, order[..|order| - 1], scope);
    }
  }

  lemma {:induction false} SelectDistinct(entries: map<string, Entry>, order: seq<string>, scope: Scope)
    requires Distinct(order)
    ensures Distinct(Select(entries, order, scope))
  {
    if order != [] {
      var n := |order| - 1;
      assert order == order[..n] + [order[n]];
      SelectDistinct(entries, order[..n], scope);
      assert order[n] !in order[..n];
    }
  }

  lemma DistinctPrefix(saved: seq<SavedEntry>)
    requires saved != [] && Distinct(Ids(saved))
    ensures var n := |saved| - 1;
            && Ids(saved) == Ids(saved[..n]) + [saved[n].record.id] && Distinct(Ids(saved[..n]))
            && saved[n].record.id !in Ids(saved[..n])
  {
    var n := |saved| - 1;
    assert Ids(saved) == Ids(saved[..n]) + [saved[n].record.id];
    assert Ids(saved)[..n] == Ids(saved[..n]);
  }

  /** The outcome of admitting a snapshot, entry by entry. */
  lemma {:induction false} AdmitAllShape(ix: Index, saved: seq<SavedEntry>)
    requires Distinct(Ids(saved))
    ensures AdmitAll(ix, saved).order == ix.order + Ids(saved)
    ensures AdmitAll(ix, saved).entries.Keys == ix.entries.Keys + (set id | id in Ids(saved))
    ensures forall i :: 0 <= i < |saved| ==> AdmitAll(ix, saved).entries[saved[i].record.id] == Unsave(saved[i])
    ensures forall id :: id in ix.entries && id !in Ids(saved) ==> AdmitAll(ix, saved).entries[id] == ix.entries[id]
  {
    if saved != [] {
      var n := |saved| - 1;
      DistinctPrefix(saved);
      AdmitAllShape(ix, saved[..n]);
      AdmitShape(AdmitAll(ix, saved[..n]), saved[n]);
      hide Admit, Unsave, Distinct;
      forall i | 0 <= i < n ensures saved[i].record.id != saved[n].record.id {
        assert Ids(saved)[i] == Ids(saved[..n])[i];
      }
    }
  }

  lemma AdmitShape(ix: Index, s: SavedEntry)
    ensures var after := Admit(ix, Unsave(s));
            after.order == ix.order + [s.record.id] && after.entries == ix.entries[s.record.id := Unsave(s)]
  {
  }

  lemma StagedOrder(saved: seq<SavedEntry>)
    requires Distinct(Ids(saved))
    ensures AdmitAll(EMPTY, saved).order == Ids(saved)
  {
    AdmitAllShape(EMPTY, saved);
  }

  /** Admitting never touches the children that listings remember. */
  lemma {:induction false} AdmitAllChildren(ix: Index, saved: seq<SavedEntry>, parent: string, rel: string)
    ensures ByParent(parent, rel) in ix.children <==> ByParent(parent, rel) in AdmitAll(ix, saved).children
    ensures ByParent(parent, rel) in ix.children ==>
              AdmitAll(ix, saved).children[ByParent(parent, rel)] == ix.children[ByParent(parent, rel)]
  {
    if saved != [] {
      AdmitAllChildren(ix, saved[..|saved| - 1], parent, rel);
    }
  }

  /** What a restore leaves: the other workspaces' entries, then the snapshot's. */
  lemma RestoredShape(ix: Index, w: Workspace, saved: seq<SavedEntry>)
    requires Consistent(ix) && Restorable(ix, w, saved)
    ensures var kept, after := Select(ix.entries, ix.order, Outside(w.dir)), RestoredIndex(ix, w, saved);
            && after.order == kept + Ids(saved)
            && (forall i :: 0 <= i < |saved| ==>
                  saved[i].record.id in after.entries && after.entries[saved[i].record.id] == Unsave(saved[i]))
            && forall id :: id in ix.entries && ix.entries[id].workspace.dir != w.dir ==>
                  id in after.entries && after.entries[id] == ix.entries[id]
  {
    var kept := Select(ix.entries, ix.order, Outside(w.dir));
    var emptied := Without(ix, Owned(ix, w.dir)).(order := kept);
    AdmitAllShape(emptied, saved);
    forall i | 0 <= i < |saved| ensures saved[i].record.id in AdmitAll(emptied, saved).entries {
      assert Ids(saved)[i] in Ids(saved);
    }
  }

  /** `RestoreWorkspace` makes the workspace's entries exactly the snapshot, in order. */
  lemma RestoreIsExact(ix: Index, w: Workspace, saved: seq<SavedEntry>)
    requires Consistent(ix) && Restorable(ix, w, saved)
    ensures var after := RestoredIndex(ix, w, saved);
            && Select(after.entries, after.order, Inside(w.dir)) == Ids(saved)
            && |SnapshotOf(after, w)| == |saved|
            && forall i :: 0 <= i < |saved| ==> SnapshotOf(after, w)[i] == Save(Unsave(saved[i]))
  {
    var kept := Select(ix.entries, ix.order, Outside(w.dir));
    var after := RestoredIndex(ix, w, saved);
    RestoredShape(ix, w, saved);
    SelectConcat(after.entries, kept, Ids(saved), Inside(w.dir));
    SelectNone(after.entries, kept, Inside(w.dir));
    SelectAll(after.entries, Ids(saved), Inside(w.dir));
  }

  /** ...and leaves every other workspace's entries and their relative order alone. */
  lemma RestoreFramesOthers(ix: Index, w: Workspace, saved: seq<SavedEntry>)
    requires Consistent(ix) && Restorable(ix, w, saved)
    ensures var after := RestoredIndex(ix, w, saved);
            && Select(after.entries, after.order, Outside(w.dir)) == Select(ix.entries, ix.order, Outside(w.dir))
            && forall id :: id in ix.entries && ix.entries[id].workspace.dir != w.dir ==>
                  id in after.entries && after.entries[id] == ix.entries[id]
  {
    var kept := Select(ix.entries, ix.order, Outside(w.dir));
    var after := RestoredIndex(ix, w, saved);
    RestoredShape(ix, w, saved);
    SelectConcat(after.entries, kept, Ids(saved), Outside(w.dir));
    SelectNone(after.entries, Ids(saved), Outside(w.dir));
    SelectAll(after.entries, kept, Outside(w.dir));
  }

  /** The saved form carries every field of the entry. */
  ghost predicate Portrays(s: SavedEntry, e: Entry) {
    && s.record == e.record && s.workspace == e.workspace
    && s.directoryRoot == e.directoryRoot && s.relativePath == e.relativePath
    && forall p :: p in s.purposes <==> p in e.purposes
  }

  /** An entry comes back whole from its saved form. */
  lemma SavedComesBack(e: Entry)
    requires e.purposes != {}
    ensures Portrays(Save(e), e) && Unsave(Save(e)) == e
  {
    forall p: Purpose ensures p in Sorted(e.purposes) <==> p in e.purposes {
      match p { case Evidence => case Output => }
    }
    assert (set p | p in Sorted(e.purposes)) == e.purposes;
  }

  /** Snapshots of a consistent registry are well formed and lose nothing: they describe every
      entry of the workspace, in registration order. */
  lemma SnapshotIsFaithful(ix: Index, w: Workspace)
    requires Consistent(ix)
    ensures var saved := SnapshotOf(ix, w);
            && Distinct(Ids(saved)) && Ids(saved) == Select(ix.entries, ix.order, Inside(w.dir))
            && forall i :: 0 <= i < |saved| ==>
                 && Ids(saved)[i] in ix.entries && Portrays(saved[i], ix.entries[Ids(saved)[i]])
                 && Unsave(saved[i]) == ix.entries[Ids(saved)[i]]
                 && Save(Unsave(saved[i])) == saved[i] && saved[i].workspace.dir == w.dir
  {
    var ids, saved := Select(ix.entries, ix.order, Inside(w.dir)), SnapshotOf(ix, w);
    SelectDistinct(ix.entries, ix.order, Inside(w.dir));
    forall i | 0 <= i < |ids|
      ensures ids[i] in ix.entries && saved[i].record.id == ids[i] && Portrays(saved[i], ix.entries[ids[i]])
      ensures Unsave(saved[i]) == ix.entries[ids[i]] && saved[i].workspace.dir == w.dir
    {
      assert ids[i] in ids;
      SavedComesBack(ix.entries[ids[i]]);
    }
    assert Ids(saved) == ids;
  }

  /** Two registries hold the same entries of a workspace, registered in the same order. */
  ghost predicate SameEntries(a: Index, b: Index, dir: string) {
    && Select(a.entries, a.order, Inside(dir)) == Select(b.entries, b.order, Inside(dir))
    && Owned(a, dir) == Owned(b, dir)
    && forall id :: id in Owned(a, dir) ==> a.entries[id] == b.entries[id]
  }

  lemma SameSnapshotSameEntries(a: Index, b: Index, w: Workspace)
    requires Consistent(a) && Consistent(b) && SnapshotOf(a, w) == SnapshotOf(b, w)
    ensures SameEntries(a, b, w.dir)
  {
    var ids := Select(a.entries, a.order, Inside(w.dir));
    SnapshotIsFaithful(a, w);
    SnapshotIsFaithful(b, w);
    OwnedIsSelected(a, w.dir);
    OwnedIsSelected(b, w.dir);
    hide Consistent, SnapshotOf, Portrays, Distinct, Unsave, Save, Select;
    forall id | id in Owned(a, w.dir) ensures a.entries[id] == b.entries[id] {
      var i :| 0 <= i < |ids| && ids[i] == id;
      assert Unsave(SnapshotOf(a, w)[i]) == a.entries[id];
    }
  }

  /** Snapshots tell any two consistent registries apart that differ in the workspace. */
  lemma SnapshotDetermines(a: Index, b: Index, w: Workspace)
    requires Consistent(a) && Consistent(b)
    ensures SnapshotOf(a, w) == SnapshotOf(b, w) <==> SameEntries(a, b, w.dir)
  {
    hide Consistent, Select;
    if SnapshotOf(a, w) == SnapshotOf(b, w) {
      SameSnapshotSameEntries(a, b, w);
    }
    if SameEntries(a, b, w.dir) {
      var ids := Select(a.entries, a.order, Inside(w.dir));
      forall i | 0 <= i < |ids| ensures SnapshotOf(a, w)[i] == SnapshotOf(b, w)[i] {
        assert ids[i] in ids && ids[i] in Owned(a, w.dir);
      }
    }
  }

  /** Whatever registry the slice was taken from, its entries of the workspace are those of
      `ix`. */
  ghost predicate GivesBack(ix: Index, dir: string, slice: seq<SavedEntry>) {
    forall source :: Consistent(source) && SnapshotOf(source, At(dir, 0)) == slice ==> SameEntries(source, ix, dir)
  }

  lemma SliceGivesBack(ix: Index, dir: string)
    requires Consistent(ix)
    ensures GivesBack(ix, dir, SnapshotOf(ix, At(dir, 0)))
  {
    hide Consistent, SameEntries, SnapshotOf;
    forall source | Consistent(source) && SnapshotOf(source, At(dir, 0)) == SnapshotOf(ix, At(dir, 0))
      ensures SameEntries(source, ix, dir)
    {
      SnapshotDetermines(source, ix, At(dir, 0));
    }
  }

  lemma OwnedIsSelected(ix: Index, dir: string)
    requires Consistent(ix)
    ensures forall id :: id in Owned(ix, dir) <==> id in Select(ix.entries, ix.order, Inside(dir))
  {
  }

  /** A snapshot taken from one registry and restored into any other reads back unchanged. */
  lemma SnapshotUndoesRestore(source: Index, target: Index, w: Workspace)
    requires Consistent(source) && Consistent(target)
    requires Restorable(target, w, SnapshotOf(source, w))
    ensures SnapshotOf(RestoredIndex(target, w, SnapshotOf(source, w)), w) == SnapshotOf(source, w)
  {
    SnapshotIsFaithful(source, w);
    RestoreIsExact(target, w, SnapshotOf(source, w));
  }

  /** ...and gives the workspace back as it was: the same IDs in the same order, and every entry
      whole. */
  lemma RestoreGivesBack(source: Index, target: Index, w: Workspace)
    requires Consistent(source) && Consistent(target) && Restorable(target, w, SnapshotOf(source, w))
    ensures Consistent(RestoredIndex(target, w, SnapshotOf(source, w)))
    ensures SameEntries(source, RestoredIndex(target, w, SnapshotOf(source, w)), w.dir)
  {
    hide Consistent, Restorable, SameEntries, RestoredIndex, SnapshotOf;
    SnapshotKeysDistinct(source, w);
    RestoreKeepsConsistent(target, w, SnapshotOf(source, w));
    SnapshotUndoesRestore(source, target, w);
    SnapshotDetermines(source, RestoredIndex(target, w, SnapshotOf(source, w)), w);
  }

  ghost predicate DistinctKeys(saved: seq<SavedEntry>) {
    forall i, j :: 0 <= i < j < |saved| ==> KeyOf(Unsave(saved[i])) != KeyOf(Unsave(saved[j]))
  }

  /** Rewriting an entry under the same ID and path keeps the index consistent. */
  lemma UpdateConsistent(ix: Index, id: string, e: Entry)
    requires Consistent(ix) && id in ix.entries
    requires e.record.id == id && KeyOf(e) == KeyOf(ix.entries[id]) && e.purposes != {}
    ensures Consistent(ix.(entries := ix.entries[id := e]))
  {
    var entries := ix.entries[id := e];
    assert entries.Keys == ix.entries.Keys;
    assert forall k :: k in entries ==> KeyOf(entries[k]) == KeyOf(ix.entries[k]);
  }

  lemma AdmitConsistent(ix: Index, e: Entry)
    requires Consistent(ix) && e.record.id !in ix.entries && KeyOf(e) !in ix.paths && e.purposes != {}
    ensures Consistent(Admit(ix, e))
  {
    var after := Admit(ix, e);
    forall key | key in after.paths
      ensures after.paths[key] in after.entries && KeyOf(after.entries[after.paths[key]]) == key
    {
      if key != KeyOf(e) {
        assert ix.paths[key] in ix.entries;
      }
    }
  }

  /** Admitting leaves other IDs and other paths alone. */
  lemma {:induction false} AdmitAllFrame(ix: Index, saved: seq<SavedEntry>, id: string, key: PathKey)
    ensures id in AdmitAll(ix, saved).entries ==> id in ix.entries || id in Ids(saved)
    ensures key in AdmitAll(ix, saved).paths ==>
              key in ix.paths || exists i :: 0 <= i < |saved| && KeyOf(Unsave(saved[i])) == key
  {
    if saved != [] {
      var n := |saved| - 1;
      assert saved == saved[..n] + [saved[n]];
      assert Ids(saved) == Ids(saved[..n]) + [saved[n].record.id];
      AdmitAllFrame(ix, saved[..n], id, key);
    }
  }

  lemma {:induction false} AdmitAllConsistent(ix: Index, saved: seq<SavedEntry>)
    requires Consistent(ix) && Distinct(Ids(saved)) && DistinctKeys(saved)
    requires forall i :: 0 <= i < |saved| ==> saved[i].record.id !in ix.entries && KeyOf(Unsave(saved[i])) !in ix.paths
    ensures Consistent(AdmitAll(ix, saved))
  {
    if saved != [] {
      var n := |saved| - 1;
      DistinctPrefix(saved);
      AdmitAllConsistent(ix, saved[..n]);
      AdmitAllFrame(ix, saved[..n], saved[n].record.id, KeyOf(Unsave(saved[n])));
      AdmitConsistent(AdmitAll(ix, saved[..n]), Unsave(saved[n]));
    }
  }

  /** Restoring a snapshot of a consistent registry keeps the registry consistent. */
  lemma RestoreKeepsConsistent(ix: Index, w: Workspace, saved: seq<SavedEntry>)
    requires Consistent(ix) && Restorable(ix, w, saved) && DistinctKeys(saved)
    ensures Consistent(RestoredIndex(ix, w, saved))
  {
    EmptiedIsConsistent(ix, w);
    EmptiedTakes(ix, w, saved);
    hide Consistent, Restorable, Without, AdmitAll;
    AdmitAllConsistent(Emptied(ix, w), saved);
  }

  lemma EmptiedIsConsistent(ix: Index, w: Workspace)
    requires Consistent(ix)
    ensures Consistent(Emptied(ix, w))
  {
    SelectDistinct(ix.entries, ix.order, Outside(w.dir));
    var released := set id | id in Owned(ix, w.dir) :: KeyOf(ix.entries[id]);
    assert forall id :: id in Owned(ix, w.dir) ==> KeyOf(ix.entries[id]) in released;
  }

  /** What is restored collides with nothing that stays. */
  lemma EmptiedTakes(ix: Index, w: Workspace, saved: seq<SavedEntry>)
    requires Consistent(ix) && Restorable(ix, w, saved)
    ensures Distinct(Ids(saved))
    ensures forall i :: 0 <= i < |saved| ==>
              saved[i].record.id !in Emptied(ix, w).entries && KeyOf(Unsave(saved[i])) !in Emptied(ix, w).paths
  {
    forall i | 0 <= i < |saved|
      ensures saved[i].record.id !in Emptied(ix, w).entries && KeyOf(Unsave(saved[i])) !in Emptied(ix, w).paths
    {
      var released := set id | id in Owned(ix, w.dir) :: KeyOf(ix.entries[id]);
      assert forall id :: id in Owned(ix, w.dir) ==> KeyOf(ix.entries[id]) in released;
    }
  }

  /** A snapshot that any registry without foreign conflicts takes over unchanged. */
  ghost predicate Portable(saved: seq<SavedEntry>, dir: string) {
    && WellFormed(saved) && DistinctKeys(saved)
    && forall i :: 0 <= i < |saved| ==> Save(Unsave(saved[i])) == saved[i] && saved[i].workspace.dir == dir
  }

  lemma SnapshotIsPortable(ix: Index, w: Workspace)
    requires Consistent(ix) && forall id :: id in ix.entries ==> !Blank(id)
    ensures Portable(SnapshotOf(ix, w), w.dir)
  {
    SnapshotIsFaithful(ix, w);
    SnapshotKeysDistinct(ix, w);
  }

  lemma PortableRestore(ix: Index, w: Workspace, saved: seq<SavedEntry>)
    requires Consistent(ix) && Portable(saved, w.dir) && Restorable(ix, w, saved)
    ensures Consistent(RestoredIndex(ix, w, saved))
    ensures SnapshotOf(RestoredIndex(ix, w, saved), w) == saved
  {
    RestoreIsExact(ix, w, saved);
    RestoreKeepsConsistent(ix, w, saved);
  }

  // -------------------------------------------------------- what entries keep

  /** An entry keeps its path, type and workspace, loses no purpose, and as evidence keeps where
      it came from. */
  ghost predicate Keeps(e: Entry, f: Entry) {
    && f.record.id == e.record.id && f.record.path == e.record.path && f.record.fileType == e.record.fileType
    && f.workspace == e.workspace && e.purposes <= f.purposes
    && (Evidence in e.purposes ==> f.record.source == e.record.source && f.record.purpose == e.record.purpose)
  }

  ghost predicate AllKept(ix: Index, after: Index) {
    forall id :: id in ix.entries ==> id in after.entries && Keeps(ix.entries[id], after.entries[id])
  }

  /** Only the entry of this ID may differ. */
  ghost predicate OnlyEntry(ix: Index, after: Index, id: string) {
    forall k :: k != id ==> (k in ix.entries <==> k in after.entries)
                            && (k in ix.entries ==> after.entries[k] == ix.entries[k])
  }

  lemma UntouchedKept(ix: Index, id: string)
    ensures AllKept(ix, ix) && OnlyEntry(ix, ix, id)
  {
  }

  lemma PutKept(ix: Index, after: Index, id: string, e: Entry)
    requires after.entries == ix.entries[id := e] && (id in ix.entries ==> Keeps(ix.entries[id], e))
    ensures AllKept(ix, after) && OnlyEntry(ix, after, id)
  {
  }

  // ------------------------------------------------------- directory listing

  /** The ID a listing gives to one file: a remembered child, else whatever the path index
      knows, else a new ID. */
  function ChildID(ix: Index, parent: string, rel: string, newID: string): string
    requires parent in ix.entries
  {
    var p := ix.entries[parent];
    if ByParent(parent, rel) in ix.children then ix.children[ByParent(parent, rel)]
    else if (p.workspace.dir, Join(p.record.path, rel)) in ix.paths then
      ix.paths[(p.workspace.dir, Join(p.record.path, rel))]
    else newID
  }

  /** An already registered file, taken over as a child of the listed directory. */
  function Adopt(e: Entry, p: Entry, rel: string): Entry {
    e.(record := if e.record.name == "" then e.record.(name := rel, kind := ArtifactFile) else e.record,
       directoryRoot := p.record.path, relativePath := rel, purposes := e.purposes + {p.record.purpose})
  }

  function NewChild(p: Entry, rel: string, newID: string): Entry {
    var description := "File from directory artifact " + p.record.name + ": " + rel;
    Entry(Record(newID, rel, Join(p.record.path, rel), description, ArtifactFile, RegularFile, p.record.purpose, ""),
          p.workspace, p.record.path, rel, {p.record.purpose})
  }

  /** The path index names entries only, and entries carry their own ID. */
  ghost predicate Resolves(ix: Index) {
    && (forall id :: id in ix.entries ==> ix.entries[id].record.id == id)
    && (forall key :: key in ix.paths ==> ix.paths[key] in ix.entries)
  }

  /** What a listing answers with for one child: none stands for the empty record, which it
      gives for a remembered child that names no entry any more. */
  function RecordOf(ix: Index, id: string): Option<Record> {
    if id in ix.entries then Some(ix.entries[id].record) else None
  }

  function ListOne(ix: Index, parent: string, rel: string, newID: string): Index
    requires Resolves(ix) && parent in ix.entries
    ensures Resolves(ListOne(ix, parent, rel, newID)) && ix.entries.Keys <= ListOne(ix, parent, rel, newID).entries.Keys
    ensures ByParent(parent, rel) in ListOne(ix, parent, rel, newID).children
  {
    var p := ix.entries[parent];
    var key := (p.workspace.dir, Join(p.record.path, rel));
    if ByParent(parent, rel) in ix.children then ix
    else if key in ix.paths then
      var id := ix.paths[key];
      ix.(entries := ix.entries[id := Adopt(ix.entries[id], p, rel)],
          children := ix.children[ByParent(parent, rel) := id])
    else
      Index(ix.entries[newID := NewChild(p, rel, newID)], ix.order + [newID], ix.paths[key := newID],
            ix.children[ByParent(parent, rel) := newID])
  }

  /** Remembered children are registered under the path their parent gives them. */
  ghost predicate ChildrenAgree(ix: Index) {
    forall parent, rel :: ByParent(parent, rel) in ix.children ==>
      && parent in ix.entries
      && ix.children[ByParent(parent, rel)] in ix.entries
      && KeyOf(ix.entries[ix.children[ByParent(parent, rel)]])
         == (ix.entries[parent].workspace.dir, Join(ix.entries[parent].record.path, rel))
  }

  lemma AdoptKeeps(ix: Index, parent: string, rel: string)
    requires Consistent(ix) && ChildrenAgree(ix) && parent in ix.entries
    requires (ix.entries[parent].workspace.dir, Join(ix.entries[parent].record.path, rel)) in ix.paths
    ensures var p := ix.entries[parent];
            var id := ix.paths[(p.workspace.dir, Join(p.record.path, rel))];
            var after := ix.(entries := ix.entries[id := Adopt(ix.entries[id], p, rel)],
                             children := ix.children[ByParent(parent, rel) := id]);
            Consistent(after) && ChildrenAgree(after)
  {
    var p := ix.entries[parent];
    var id := ix.paths[(p.workspace.dir, Join(p.record.path, rel))];
    var entries := ix.entries[id := Adopt(ix.entries[id], p, rel)];
    assert forall k :: k in entries ==> KeyOf(entries[k]) == KeyOf(ix.entries[k]);
    assert entries.Keys == ix.entries.Keys;
  }

  lemma NewChildKeeps(ix: Index, parent: string, rel: string, newID: string)
    requires Consistent(ix) && ChildrenAgree(ix) && parent in ix.entries && newID !in ix.entries
    requires (ix.entries[parent].workspace.dir, Join(ix.entries[parent].record.path, rel)) !in ix.paths
    ensures var p := ix.entries[parent];
            var key := (p.workspace.dir, Join(p.record.path, rel));
            var after := Index(ix.entries[newID := NewChild(p, rel, newID)], ix.order + [newID],
                               ix.paths[key := newID], ix.children[ByParent(parent, rel) := newID]);
            Consistent(after) && ChildrenAgree(after)
  {
    var e := NewChild(ix.entries[parent], rel, newID);
    AdmitConsistent(ix, e);
    var after := Admit(ix, e);
    assert forall k :: k in ix.entries ==> after.entries[k] == ix.entries[k];
  }

  lemma ListOneKeeps(ix: Index, parent: string, rel: string, newID: string)
    requires Consistent(ix) && ChildrenAgree(ix) && parent in ix.entries && newID !in ix.entries
    ensures var after := ListOne(ix, parent, rel, newID);
            && Consistent(after) && ChildrenAgree(after)
            && ByParent(parent, rel) in after.children
            && after.children[ByParent(parent, rel)] == ChildID(ix, parent, rel, newID)
            && parent in after.entries && KeyOf(after.entries[parent]) == KeyOf(ix.entries[parent])
            && ix.entries.Keys <= after.entries.Keys <= ix.entries.Keys + {newID}
  {
    var p := ix.entries[parent];
    if ByParent(parent, rel) in ix.children {
    } else if (p.workspace.dir, Join(p.record.path, rel)) in ix.paths {
      AdoptKeeps(ix, parent, rel);
    } else {
      NewChildKeeps(ix, parent, rel, newID);
    }
  }

  /** What a listing makes of a child: readable for what its directory `p` is for besides what
      it was before, under its name in the directory unless it has one, and where it came from
      if it was registered already. */
  ghost predicate ChildOf(before: Option<Entry>, e: Entry, p: Entry, rel: string) {
    && e.record.path == Join(p.record.path, rel) && e.workspace.dir == p.workspace.dir
    && (e.directoryRoot, e.relativePath) == (p.record.path, rel)
    && e.purposes == (if before.Some? then before.value.purposes else {}) + {p.record.purpose}
    && (before.None? || before.value.record.name == "" ==> e.record.name == rel && e.record.kind == ArtifactFile)
    && (before.None? ==>
          && e.record.fileType == RegularFile && e.record.purpose == p.record.purpose && e.record.source == ""
          && e.record.description == "File from directory artifact " + p.record.name + ": " + rel)
    && (before.Some? ==>
          && Keeps(before.value, e) && e.record.source == before.value.record.source
          && e.record.description == before.value.record.description
          && (before.value.record.name != "" ==> e.record == before.value.record))
  }

  lemma AdoptedChild(e: Entry, p: Entry, rel: string)
    requires e.record.path == Join(p.record.path, rel) && e.workspace.dir == p.workspace.dir
    ensures ChildOf(Some(e), Adopt(e, p, rel), p, rel) && Keeps(e, Adopt(e, p, rel))
  {
  }

  lemma FirstChild(p: Entry, rel: string, newID: string)
    ensures ChildOf(None, NewChild(p, rel, newID), p, rel)
  {
  }

  lemma ListOneRecord(ix: Index, parent: string, rel: string, newID: string)
    requires Consistent(ix) && parent in ix.entries && newID !in ix.entries
    ensures var after, id := ListOne(ix, parent, rel, newID), ChildID(ix, parent, rel, newID);
            && AllKept(ix, after) && OnlyEntry(ix, after, id)
            && (ByParent(parent, rel) in ix.children ==> after == ix)
            && (ByParent(parent, rel) !in ix.children ==>
                  && id in after.entries
                  && ChildOf(Found(ix.entries, id), after.entries[id], ix.entries[parent], rel))
  {
    var after, id, p := ListOne(ix, parent, rel, newID), ChildID(ix, parent, rel, newID), ix.entries[parent];
    hide AllKept, OnlyEntry, ChildOf, Keeps;
    if ByParent(parent, rel) in ix.children {
      UntouchedKept(ix, id);
    } else if (p.workspace.dir, Join(p.record.path, rel)) in ix.paths {
      AdoptedChild(ix.entries[id], p, rel);
      hide Consistent;
      PutKept(ix, after, id, Adopt(ix.entries[id], p, rel));
    } else {
      hide Consistent;
      PutKept(ix, after, newID, NewChild(p, rel, newID));
      FirstChild(p, rel, newID);
    }
  }

  /** A whole directory walk. */
  function Listed(ix: Index, parent: string, rels: seq<string>, newIDs: seq<string>): (after: Index)
    requires |newIDs| == |rels| && Resolves(ix) && parent in ix.entries
    ensures Resolves(after) && ix.entries.Keys <= after.entries.Keys
  {
    if rels == [] then ix else
      var n := |rels| - 1;
      ListOne(Listed(ix, parent, rels[..n], newIDs[..n]), parent, rels[n], newIDs[n])
  }

  /** The records a whole walk answers with, in the order of the walk. */
  function Answers(ix: Index, parent: string, rels: seq<string>, newIDs: seq<string>): (found: seq<Option<Record>>)
    requires |newIDs| == |rels| && Resolves(ix) && parent in ix.entries
    ensures |found| == |rels|
  {
    if rels == [] then [] else
      var n := |rels| - 1;
      var after := Listed(ix, parent, rels, newIDs);
      Answers(ix, parent, rels[..n], newIDs[..n]) + [RecordOf(after, after.children[ByParent(parent, rels[n])])]
  }

  lemma AppendedKeeps(found: seq<Option<Record>>, last: Option<Record>, i: nat)
    requires i < |found|
    ensures (found + [last])[i] == found[i]
  {
  }

  /** One more file changes no answer and no remembered child. */
  lemma OneMoreAnswer(ix: Index, parent: string, rels: seq<string>, newIDs: seq<string>)
    requires |newIDs| == |rels| > 0 && Resolves(ix) && parent in ix.entries
    ensures var n, after := |rels| - 1, Listed(ix, parent, rels, newIDs);
            && ByParent(parent, rels[n]) in after.children
            && Answers(ix, parent, rels, newIDs)
               == Answers(ix, parent, rels[..n], newIDs[..n])
                  + [RecordOf(after, after.children[ByParent(parent, rels[n])])]
  {
    hide ListOne, RecordOf, Resolves;
  }

  lemma ChildStays(ix: Index, parent: string, rel: string, newID: string, key: ChildKey)
    requires Resolves(ix) && parent in ix.entries && key in ix.children
    ensures var after := ListOne(ix, parent, rel, newID);
            key in after.children && after.children[key] == ix.children[key]
  {
  }

  /** The answer for one file: the child now remembered, unless that one was remembered before
      the walk and named no entry then. */
  ghost predicate AnswersFor(ix: Index, after: Index, key: ChildKey, answer: Option<Record>) {
    && key in after.children
    && (answer.Some? ==> answer.value.id == after.children[key])
    && (answer.None? ==>
          key in ix.children && after.children[key] == ix.children[key] && ix.children[key] !in ix.entries)
  }

  lemma AnswerOfOne(ix: Index, before: Index, parent: string, rel: string, newID: string)
    requires Resolves(before) && parent in before.entries && ix.entries.Keys <= before.entries.Keys
    requires forall key :: key in before.children && key !in ix.children ==> before.children[key] in before.entries
    requires forall key :: key in ix.children ==> key in before.children && before.children[key] == ix.children[key]
    ensures var after, key := ListOne(before, parent, rel, newID), ByParent(parent, rel);
            key in after.children && AnswersFor(ix, after, key, RecordOf(after, after.children[key]))
  {
  }

  /** Along the walk remembered children stay, and new ones name entries. */
  lemma {:induction false} WalkRemembers(ix: Index, parent: string, rels: seq<string>, newIDs: seq<string>,
                                         key: ChildKey)
    requires |newIDs| == |rels| && Resolves(ix) && parent in ix.entries
    ensures var after := Listed(ix, parent, rels, newIDs);
            && (key in ix.children ==> key in after.children && after.children[key] == ix.children[key])
            && (key in after.children && key !in ix.children ==> after.children[key] in after.entries)
  {
    if rels != [] {
      var n := |rels| - 1;
      WalkRemembers(ix, parent, rels[..n], newIDs[..n], key);
    }
  }

  lemma LastAnswer(ix: Index, parent: string, rels: seq<string>, newIDs: seq<string>)
    requires |newIDs| == |rels| > 0 && Resolves(ix) && parent in ix.entries
    ensures var n := |rels| - 1;
            AnswersFor(ix, Listed(ix, parent, rels, newIDs), ByParent(parent, rels[n]),
                       Answers(ix, parent, rels, newIDs)[n])
  {
    hide AnswersFor, Resolves, ListOne, RecordOf;
    var n := |rels| - 1;
    var before := Listed(ix, parent, rels[..n], newIDs[..n]);
    forall key ensures key in ix.children ==> key in before.children && before.children[key] == ix.children[key]
      ensures key in before.children && key !in ix.children ==> before.children[key] in before.entries
    {
      WalkRemembers(ix, parent, rels[..n], newIDs[..n], key);
    }
    AnswerOfOne(ix, before, parent, rels[n], newIDs[n]);
  }

  lemma {:induction false} AnswerIsChild(ix: Index, parent: string, rels: seq<string>, newIDs: seq<string>, i: nat)
    requires |newIDs| == |rels| && Resolves(ix) && parent in ix.entries && i < |rels|
    ensures AnswersFor(ix, Listed(ix, parent, rels, newIDs), ByParent(parent, rels[i]),
                       Answers(ix, parent, rels, newIDs)[i])
  {
    hide Resolves, ListOne, RecordOf, Answers;
    var n := |rels| - 1;
    var before := Listed(ix, parent, rels[..n], newIDs[..n]);
    if i < n {
      assert rels[..n][i] == rels[i];
      AnswerIsChild(ix, parent, rels[..n], newIDs[..n], i);
      OneMoreAnswer(ix, parent, rels, newIDs);
      var after := Listed(ix, parent, rels, newIDs);
      AppendedKeeps(Answers(ix, parent, rels[..n], newIDs[..n]),
                    RecordOf(after, after.children[ByParent(parent, rels[n])]), i);
      ChildStays(before, parent, rels[n], newIDs[n], ByParent(parent, rels[i]));
    } else {
      LastAnswer(ix, parent, rels, newIDs);
    }
  }

  /** A walk answers, file by file, with the children it remembers; with the empty record
      exactly for children remembered before that named no entry. */
  lemma AnswersAreChildren(ix: Index, parent: string, rels: seq<string>, newIDs: seq<string>)
    requires |newIDs| == |rels| && Resolves(ix) && parent in ix.entries
    ensures forall i :: 0 <= i < |rels| ==>
              AnswersFor(ix, Listed(ix, parent, rels, newIDs), ByParent(parent, rels[i]),
                         Answers(ix, parent, rels, newIDs)[i])
  {
    forall i | 0 <= i < |rels|
      ensures AnswersFor(ix, Listed(ix, parent, rels, newIDs), ByParent(parent, rels[i]),
                         Answers(ix, parent, rels, newIDs)[i])
    {
      AnswerIsChild(ix, parent, rels, newIDs, i);
    }
  }

  // ------------------------------------------------------- sorting by name

  /** `a <= b` for Go strings: UTF-8 keeps the order of code points. */
  predicate NotAfter(a: string, b: string) {
    a == [] || (b != [] && (a[0] < b[0] || (a[0] == b[0] && NotAfter(a[1..], b[1..]))))
  }

  lemma {:induction false} NotAfterTotal(a: string, b: string)
    ensures NotAfter(a, b) || NotAfter(b, a)
  {
    if a != [] && b != [] {
      NotAfterTotal(a[1..], b[1..]);
    }
  }

  lemma {:induction false} NotAfterTransitive(a: string, b: string, c: string)
    requires NotAfter(a, b) && NotAfter(b, c)
    ensures NotAfter(a, c)
  {
    if a != [] && a[0] == b[0] == c[0] {
      NotAfterTransitive(a[1..], b[1..], c[1..]);
    }
  }

  /** The empty record has the empty name. */
  function NameOf(answer: Option<Record>): string {
    if answer.Some? then answer.value.name else ""
  }

  predicate ByName(found: seq<Option<Record>>) {
    forall i, j :: 0 <= i < j < |found| ==> NotAfter(NameOf(found[i]), NameOf(found[j]))
  }

  function InsertByName(answer: Option<Record>, found: seq<Option<Record>>): seq<Option<Record>> {
    if found == [] || NotAfter(NameOf(answer), NameOf(found[0])) then [answer] + found
    else [found[0]] + InsertByName(answer, found[1..])
  }

  /** One of the orders that sorting by name may give: equal names may stand either way. */
  function SortedByName(found: seq<Option<Record>>): seq<Option<Record>> {
    if found == [] then [] else InsertByName(found[0], SortedByName(found[1..]))
  }

  lemma {:induction false} InsertByNameKeeps(answer: Option<Record>, found: seq<Option<Record>>)
    ensures multiset(InsertByName(answer, found)) == multiset(found) + multiset{answer}
  {
    if found != [] {
      InsertByNameKeeps(answer, found[1..]);
      assert found == [found[0]] + found[1..];
    }
  }

  lemma FirstByName(first: Option<Record>, found: seq<Option<Record>>)
    requires ByName(found) && forall answer :: answer in found ==> NotAfter(NameOf(first), NameOf(answer))
    ensures ByName([first] + found)
  {
    hide NotAfter, NameOf;
  }

  lemma {:induction false} InsertByNameSorts(answer: Option<Record>, found: seq<Option<Record>>)
    requires ByName(found)
    ensures ByName(InsertByName(answer, found))
  {
    hide NotAfter, NameOf;
    if found == [] || NotAfter(NameOf(answer), NameOf(found[0])) {
      forall other | other in found ensures NotAfter(NameOf(answer), NameOf(other)) {
        var j :| 0 <= j < |found| && found[j] == other;
        if j > 0 {
          NotAfterTransitive(NameOf(answer), NameOf(found[0]), NameOf(found[j]));
        }
      }
      FirstByName(answer, found);
    } else {
      var rest := InsertByName(answer, found[1..]);
      InsertByNameSorts(answer, found[1..]);
      InsertByNameKeeps(answer, found[1..]);
      NotAfterTotal(NameOf(answer), NameOf(found[0]));
      forall other | other in rest ensures NotAfter(NameOf(found[0]), NameOf(other)) {
        assert other in multiset(rest);
        if other != answer {
          assert other in found[1..];
        }
      }
      FirstByName(found[0], rest);
    }
  }

  lemma {:induction false} SortsByName(found: seq<Option<Record>>)
    ensures ByName(SortedByName(found)) && multiset(SortedByName(found)) == multiset(found)
  {
    if found != [] {
      SortsByName(found[1..]);
      InsertByNameSorts(found[0], SortedByName(found[1..]));
      InsertByNameKeeps(found[0], SortedByName(found[1..]));
      assert found == [found[0]] + found[1..];
    }
  }

  lemma {:induction false} ListedNames(ix: Index, parent: string, rels: seq<string>, newIDs: seq<string>)
    requires |newIDs| == |rels| && Resolves(ix) && parent in ix.entries
    ensures forall id :: id in Listed(ix, parent, rels, newIDs).entries ==> id in ix.entries || id in newIDs
  {
    if rels != [] {
      var n := |rels| - 1;
      ListedNames(ix, parent, rels[..n], newIDs[..n]);
      assert newIDs == newIDs[..n] + [newIDs[n]];
    }
  }

  lemma ConsistentResolves(ix: Index)
    requires Consistent(ix)
    ensures Resolves(ix)
  {
  }

  /** A walk offered fresh IDs keeps the registry consistent and every entry what it is. */
  lemma {:induction false} ListedKeeps(ix: Index, parent: string, rels: seq<string>, newIDs: seq<string>)
    requires |newIDs| == |rels| && Distinct(newIDs) && forall id :: id in newIDs ==> id !in ix.entries
    requires Consistent(ix) && ChildrenAgree(ix) && parent in ix.entries
    ensures Consistent(Listed(ix, parent, rels, newIDs)) && ChildrenAgree(Listed(ix, parent, rels, newIDs))
    ensures AllKept(ix, Listed(ix, parent, rels, newIDs))
  {
    hide Consistent, ChildrenAgree, ListOne, Resolves, Keeps, AllKept;
    ConsistentResolves(ix);
    UntouchedKept(ix, parent);
    if rels != [] {
      var n := |rels| - 1;
      ListedKeeps(ix, parent, rels[..n], newIDs[..n]);
      ListedNames(ix, parent, rels[..n], newIDs[..n]);
      var before := Listed(ix, parent, rels[..n], newIDs[..n]);
      FreshSoFar(ix, before, newIDs);
      ListOneKeeps(before, parent, rels[n], newIDs[n]);
      ListOneRecord(before, parent, rels[n], newIDs[n]);
      KeptTransitive(ix, before, ListOne(before, parent, rels[n], newIDs[n]));
    }
  }

  /** The last of the offered IDs is still fresh after the others. */
  lemma FreshSoFar(ix: Index, before: Index, newIDs: seq<string>)
    requires newIDs != [] && Distinct(newIDs) && forall id :: id in newIDs ==> id !in ix.entries
    requires forall id :: id in before.entries ==> id in ix.entries || id in newIDs[..|newIDs| - 1]
    ensures newIDs[|newIDs| - 1] !in before.entries && Distinct(newIDs[..|newIDs| - 1])
  {
    assert newIDs[|newIDs| - 1] in newIDs;
  }

  lemma KeptTransitive(a: Index, b: Index, c: Index)
    requires AllKept(a, b) && AllKept(b, c)
    ensures AllKept(a, c)
  {
  }

  /** A snapshot taken after a listing and restored elsewhere makes the next listing of
      that file return the same opaque ID, exactly when the restoring process remembers
      no other child under that parent and path. */
  lemma ListingIsStable(listed: Index, target: Index, w: Workspace, parent: string, rel: string, newID: string)
    requires Consistent(listed) && ChildrenAgree(listed) && ByParent(parent, rel) in listed.children
    requires listed.entries[parent].workspace.dir == w.dir
    requires Consistent(target) && Restorable(target, w, SnapshotOf(listed, w))
    ensures var after := RestoredIndex(target, w, SnapshotOf(listed, w));
            && parent in after.entries
            && (ChildID(after, parent, rel, newID) == listed.children[ByParent(parent, rel)] <==>
                (ByParent(parent, rel) in target.children ==>
                   target.children[ByParent(parent, rel)] == listed.children[ByParent(parent, rel)]))
  {
    RestoredEntry(listed, target, w, parent);
    RestoredEntry(listed, target, w, listed.children[ByParent(parent, rel)]);
    RestoredChildren(listed, target, w, parent, rel);
  }

  /** Restoring never touches the children remembered by listings. */
  lemma RestoredChildren(source: Index, target: Index, w: Workspace, parent: string, rel: string)
    ensures var after := RestoredIndex(target, w, SnapshotOf(source, w));
            && (ByParent(parent, rel) in after.children <==> ByParent(parent, rel) in target.children)
            && (ByParent(parent, rel) in target.children ==>
                  after.children[ByParent(parent, rel)] == target.children[ByParent(parent, rel)])
  {
    var emptied := Emptied(target, w);
    AdmitAllChildren(emptied, SnapshotOf(source, w), parent, rel);
  }

  /** Every entry of the snapshot's workspace comes back whole, and the path index finds it. */
  lemma RestoredEntry(source: Index, target: Index, w: Workspace, id: string)
    requires Consistent(source) && Consistent(target) && Restorable(target, w, SnapshotOf(source, w))
    requires id in source.entries && source.entries[id].workspace.dir == w.dir
    ensures var after := RestoredIndex(target, w, SnapshotOf(source, w));
            && id in after.entries && after.entries[id] == source.entries[id]
            && KeyOf(source.entries[id]) in after.paths && after.paths[KeyOf(source.entries[id])] == id
  {
    hide Restorable, RestoredIndex, SnapshotOf;
    RestoreGivesBack(source, target, w);
    assert id in Owned(source, w.dir);
  }

  lemma SnapshotKeysDistinct(ix: Index, w: Workspace)
    requires Consistent(ix)
    ensures DistinctKeys(SnapshotOf(ix, w))
  {
    var ids := Select(ix.entries, ix.order, Inside(w.dir));
    SelectDistinct(ix.entries, ix.order, Inside(w.dir));
    forall i, j | 0 <= i < j < |ids| ensures KeyOf(ix.entries[ids[i]]) != KeyOf(ix.entries[ids[j]]) {
      assert ids[i] in ids && ids[j] in ids;
    }
  }

  /** The condition of `ListingIsStable` can fail: list a file that was not registered,
      then roll the workspace back to the snapshot taken before.  The remembered child
      survives, so the next listing answers with an ID that no longer names an entry. */
  lemma RollbackLeavesStaleChild(ix: Index, w: Workspace, parent: string, rel: string, newID: string, nextID: string)
    requires Consistent(ix) && ChildrenAgree(ix) && parent in ix.entries && newID !in ix.entries
    requires ix.entries[parent].workspace.dir == w.dir
    requires ByParent(parent, rel) !in ix.children && (w.dir, Join(ix.entries[parent].record.path, rel)) !in ix.paths
    ensures var after := RestoredIndex(ListOne(ix, parent, rel, newID), w, SnapshotOf(ix, w));
            && parent in after.entries
            && ChildID(after, parent, rel, nextID) == newID
            && newID !in after.entries
  {
    var listed := ListOne(ix, parent, rel, newID);
    var saved := SnapshotOf(ix, w);
    var emptied := Emptied(listed, w);
    SnapshotIsFaithful(ix, w);
    RestoredChildren(ix, listed, w, parent, rel);
    AdmitAllShape(emptied, saved);
    SnapshotNames(ix, w, parent);
    SnapshotNames(ix, w, newID);
    assert newID in Owned(listed, w.dir);
  }

  lemma SnapshotNames(ix: Index, w: Workspace, id: string)
    requires Consistent(ix)
    ensures id in Ids(SnapshotOf(ix, w)) <==> id in ix.entries && ix.entries[id].workspace.dir == w.dir
  {
    assert Ids(SnapshotOf(ix, w)) == Select(ix.entries, ix.order, Inside(w.dir));
  }

  // ------------------------------------------------- declaring and evidence

  function Declared(ix: Index, w: Workspace, name: string, path: string, description: string,
                    fileType: FileType, newID: string): Index
    requires Consistent(ix)
  {
    if (w.dir, path) in ix.paths then
      var id := ix.paths[(w.dir, path)];
      var e := ix.entries[id];
      if e.record.fileType != fileType then ix
      else ix.(entries := ix.entries[id := DeclaredEntry(e, name, description)])
    else
      Admit(ix, Entry(Record(newID, name, path, description, Artifact, fileType, Output, ""), w, "", "", {Output}))
  }

  function Registered(ix: Index, w: Workspace, path: string, source: string, description: string, newID: string): Index
    requires Consistent(ix)
  {
    if (w.dir, path) in ix.paths then
      var id := ix.paths[(w.dir, path)];
      var e := ix.entries[id];
      if e.record.fileType != RegularFile || Evidence in e.purposes then ix
      else ix.(entries := ix.entries[id := RegisteredEntry(e, path, source, description)])
    else
      Admit(ix, Entry(Record(newID, "", path, description, Artifact, RegularFile, Evidence, source),
                      w, "", "", {Evidence}))
  }

  /** What `Declare` makes of the entry at a path: the new name and description, an output
      besides what it was before, and everything else as it was. */
  ghost predicate DeclaredAs(before: Option<Entry>, e: Entry, name: string, description: string) {
    && e.record.name == name && e.record.description == description && e.record.kind == Artifact
    && e.purposes == (if before.Some? then before.value.purposes else {}) + {Output}
    && (before.None? ==> e.record.source == "" && e.record.purpose == Output && e.directoryRoot == "")
    && (before.Some? ==>
          && Keeps(before.value, e) && e.record.source == before.value.record.source
          && e.record.purpose == before.value.record.purpose
          && (e.directoryRoot, e.relativePath) == (before.value.directoryRoot, before.value.relativePath))
  }

  /** What `RegisterEvidence` makes of the entry at a path that was not evidence before: it comes
      from `source`, it is described unless it was, and it has the name it had. */
  ghost predicate RegisteredAs(before: Option<Entry>, e: Entry, source: string, description: string) {
    && e.record.source == source && e.record.purpose == Evidence && e.record.fileType == RegularFile
    && e.purposes == (if before.Some? then before.value.purposes else {}) + {Evidence}
    && (before.None? || before.value.record.description == "" ==> e.record.description == description)
    && (before.None? ==> e.record.name == "" && e.record.kind == Artifact && e.directoryRoot == "")
    && (before.Some? ==>
          && Keeps(before.value, e)
          && e.record.name == before.value.record.name && e.record.kind == before.value.record.kind
          && (before.value.record.description != "" ==> e.record.description == before.value.record.description)
          && (e.directoryRoot, e.relativePath) == (before.value.directoryRoot, before.value.relativePath))
  }

  function Found(entries: map<string, Entry>, id: string): Option<Entry> {
    if id in entries then Some(entries[id]) else None
  }

  function DeclaredEntry(e: Entry, name: string, description: string): Entry {
    e.(record := e.record.(name := name, description := description, kind := Artifact),
       purposes := e.purposes + {Output})
  }

  function RegisteredEntry(e: Entry, path: string, source: string, description: string): Entry {
    e.(record := e.record.(description := if e.record.description == "" then description else e.record.description,
                           path := path, source := source, purpose := Evidence),
       purposes := e.purposes + {Evidence})
  }

  lemma EntryDeclared(e: Entry, name: string, description: string)
    ensures DeclaredAs(Some(e), DeclaredEntry(e, name, description), name, description)
    ensures Keeps(e, DeclaredEntry(e, name, description))
  {
  }

  lemma EntryRegistered(e: Entry, path: string, source: string, description: string)
    requires e.record.path == path && e.record.fileType == RegularFile && Evidence !in e.purposes
    ensures RegisteredAs(Some(e), RegisteredEntry(e, path, source, description), source, description)
    ensures Keeps(e, RegisteredEntry(e, path, source, description))
  {
  }

  lemma DeclaredRecord(ix: Index, w: Workspace, name: string, path: string, description: string,
                       fileType: FileType, newID: string)
    requires Consistent(ix) && newID !in ix.entries
    ensures var after := Declared(ix, w, name, path, description, fileType, newID);
            && AllKept(ix, after) && (w.dir, path) in after.paths
            && var id := after.paths[(w.dir, path)];
               && OnlyEntry(ix, after, id) && id in after.entries
               && (if id in ix.entries && ix.entries[id].record.fileType != fileType then after == ix
                   else DeclaredAs(Found(ix.entries, id), after.entries[id], name, description))
  {
    var after := Declared(ix, w, name, path, description, fileType, newID);
    hide AllKept, OnlyEntry, DeclaredAs, Keeps;
    if (w.dir, path) in ix.paths {
      var id := ix.paths[(w.dir, path)];
      UntouchedKept(ix, id);
      EntryDeclared(ix.entries[id], name, description);
      hide Consistent;
      if ix.entries[id].record.fileType == fileType {
        PutKept(ix, after, id, DeclaredEntry(ix.entries[id], name, description));
      }
    } else {
      hide Consistent;
      FirstDeclared(w, name, path, description, fileType, newID);
      PutKept(ix, after, newID, after.entries[newID]);
    }
  }

  lemma FirstDeclared(w: Workspace, name: string, path: string, description: string, fileType: FileType, newID: string)
    ensures DeclaredAs(None, Entry(Record(newID, name, path, description, Artifact, fileType, Output, ""), w, "", "",
                                   {Output}), name, description)
  {
  }

  lemma FirstRegistered(w: Workspace, path: string, source: string, description: string, newID: string)
    ensures RegisteredAs(None, Entry(Record(newID, "", path, description, Artifact, RegularFile, Evidence, source),
                                     w, "", "", {Evidence}), source, description)
  {
  }

  lemma RegisteredRecord(ix: Index, w: Workspace, path: string, source: string, description: string, newID: string)
    requires Consistent(ix) && newID !in ix.entries
    ensures var after := Registered(ix, w, path, source, description, newID);
            && AllKept(ix, after) && (w.dir, path) in after.paths
            && var id := after.paths[(w.dir, path)];
               && OnlyEntry(ix, after, id) && id in after.entries
               && (if id in ix.entries && (ix.entries[id].record.fileType != RegularFile
                                           || Evidence in ix.entries[id].purposes)
                   then after == ix
                   else RegisteredAs(Found(ix.entries, id), after.entries[id], source, description))
  {
    var after := Registered(ix, w, path, source, description, newID);
    hide AllKept, OnlyEntry, RegisteredAs, Keeps;
    if (w.dir, path) in ix.paths {
      var id := ix.paths[(w.dir, path)];
      UntouchedKept(ix, id);
      assert ix.entries[id].record.path == path;
      hide Consistent;
      if ix.entries[id].record.fileType == RegularFile && Evidence !in ix.entries[id].purposes {
        EntryRegistered(ix.entries[id], path, source, description);
        PutKept(ix, after, id, RegisteredEntry(ix.entries[id], path, source, description));
      }
    } else {
      hide Consistent;
      FirstRegistered(w, path, source, description, newID);
      PutKept(ix, after, newID, after.entries[newID]);
    }
  }

  ghost function EvidenceIDs(ix: Index): set<string> {
    set id | id in ix.entries && Evidence in ix.entries[id].purposes
  }

  lemma UpdateKeepsEvidence(ix: Index, id: string, e: Entry)
    requires id in ix.entries && (Evidence in e.purposes <==> Evidence in ix.entries[id].purposes)
    ensures EvidenceIDs(ix.(entries := ix.entries[id := e])) == EvidenceIDs(ix)
  {
  }

  lemma AdmitKeepsEvidence(ix: Index, e: Entry)
    requires e.record.id !in ix.entries && Evidence !in e.purposes
    ensures EvidenceIDs(Admit(ix, e)) == EvidenceIDs(ix)
  {
  }

  lemma DeclaredKeeps(ix: Index, w: Workspace, name: string, path: string, description: string,
                      fileType: FileType, newID: string)
    requires Consistent(ix) && newID !in ix.entries
    ensures Consistent(Declared(ix, w, name, path, description, fileType, newID))
    ensures EvidenceIDs(Declared(ix, w, name, path, description, fileType, newID)) == EvidenceIDs(ix)
  {
    if (w.dir, path) in ix.paths {
      var id := ix.paths[(w.dir, path)];
      var e := ix.entries[id];
      var next := DeclaredEntry(e, name, description);
      UpdateConsistent(ix, id, next);
      UpdateKeepsEvidence(ix, id, next);
    } else {
      var e := Entry(Record(newID, name, path, description, Artifact, fileType, Output, ""), w, "", "", {Output});
      AdmitConsistent(ix, e);
      AdmitKeepsEvidence(ix, e);
    }
  }

  lemma RegisteredKeeps(ix: Index, w: Workspace, path: string, source: string, description: string, newID: string)
    requires Consistent(ix) && newID !in ix.entries
    ensures Consistent(Registered(ix, w, path, source, description, newID))
  {
    if (w.dir, path) in ix.paths {
      var id := ix.paths[(w.dir, path)];
      var e := ix.entries[id];
      UpdateConsistent(ix, id, RegisteredEntry(e, path, source, description));
    } else {
      AdmitConsistent(ix, Entry(Record(newID, "", path, description, Artifact, RegularFile, Evidence, source),
                                w, "", "", {Evidence}));
    }
  }

  /** Registration gives the evidence purpose to the artifact at `path` and to no other. */
  lemma RegisteredEvidence(ix: Index, w: Workspace, path: string, source: string, description: string, newID: string)
    requires Consistent(ix) && newID !in ix.entries
    ensures var after := Registered(ix, w, path, source, description, newID);
            && (w.dir, path) in after.paths
            && var id := after.paths[(w.dir, path)];
               if (w.dir, path) in ix.paths && ix.entries[ix.paths[(w.dir, path)]].record.fileType != RegularFile
               then after == ix
               else EvidenceIDs(after) == EvidenceIDs(ix) + {id}
  {
    var after := Registered(ix, w, path, source, description, newID);
    var id := after.paths[(w.dir, path)];
    forall k | k != id ensures k in EvidenceIDs(after) <==> k in EvidenceIDs(ix) {
    }
  }

  // ------------------------------------------------------------ staging

  /** The first `n` records have been admitted to an empty registry. */
  ghost predicate StagedTo(saved: seq<SavedEntry>, n: nat, staged: Index)
    requires n <= |saved|
  {
    && staged == AdmitAll(EMPTY, saved[..n]) && WellFormed(saved[..n])
    && staged.entries.Keys == set id | id in Ids(saved[..n])
  }

  lemma NothingStaged(saved: seq<SavedEntry>)
    ensures StagedTo(saved, 0, EMPTY)
  {
    assert Ids(saved[..0]) == [];
  }

  lemma StagesOneMore(saved: seq<SavedEntry>, i: nat, staged: Index)
    requires i < |saved| && StagedTo(saved, i, staged)
    ensures Blank(saved[i].record.id) || saved[i].record.id in staged.entries ==> !WellFormed(saved)
    ensures !Blank(saved[i].record.id) && saved[i].record.id !in staged.entries ==>
              StagedTo(saved, i + 1, Admit(staged, Unsave(saved[i])))
  {
    WellFormedGrows(saved, i);
    hide WellFormed, Blank;
    assert saved[..i + 1][..i] == saved[..i] && Unsave(saved[i]).record.id == saved[i].record.id;
  }

  lemma AllStaged(saved: seq<SavedEntry>, staged: Index)
    requires StagedTo(saved, |saved|, staged)
    ensures staged == AdmitAll(EMPTY, saved) && WellFormed(saved)
  {
    assert saved[..|saved|] == saved;
  }

  // -------------------------------------------------------------- the object

  class ArtifactRegistry {
    var entries: map<string, Entry>
    var order: seq<string>
    var paths: map<PathKey, string>
    var children: map<ChildKey, string>

    ghost function Value(): Index
      reads this
    {
      Index(entries, order, paths, children)
    }

    constructor ()
      ensures Value() == EMPTY && Consistent(Value())
    {
      entries, order, paths, children := map[], [], map[], map[];
    }

    method SnapshotWorkspace(w: Workspace) returns (saved: seq<SavedEntry>)
      ensures saved == SnapshotOf(Value(), w)
    {
      var ids := [];
      for i := 0 to |order|
        invariant ids == Select(entries, order[..i], Inside(w.dir))
      {
        assert order[..i + 1][..i] == order[..i];
        if order[i] in entries && entries[order[i]].workspace.dir == w.dir {
          ids := ids + [order[i]];
        }
      }
      assert order[..|order|] == order;
      saved := SaveAll(entries, ids);
    }

    /** Allocates, or takes over, the ID of a configured artifact. */
    method Declare(w: Workspace, name: string, path: string, description: string, fileType: FileType, newID: string)
      returns (id: string, accepted: bool)
      requires Consistent(Value()) && newID !in entries
      modifies this
      ensures Consistent(Value())
      ensures Value() == Declared(old(Value()), w, name, path, description, fileType, newID)
      ensures accepted ==> id in entries && KeyOf(entries[id]) == (w.dir, path) && Output in entries[id].purposes
                           && entries[id].record.fileType == fileType
      ensures accepted <==> (w.dir, path) !in old(paths)
                            || old(entries[paths[(w.dir, path)]]).record.fileType == fileType
      ensures AllKept(old(Value()), Value()) && EvidenceIDs(Value()) == old(EvidenceIDs(Value()))
      ensures accepted ==> OnlyEntry(old(Value()), Value(), id)
                           && DeclaredAs(old(Found(entries, id)), entries[id], name, description)
      ensures !accepted ==> Value() == old(Value())
    {
      DeclaredKeeps(Value(), w, name, path, description, fileType, newID);
      DeclaredRecord(Value(), w, name, path, description, fileType, newID);
      hide AllKept, OnlyEntry, DeclaredAs, Keeps, EvidenceIDs;
      if (w.dir, path) in paths {
        id := paths[(w.dir, path)];
        var existing := entries[id];
        if existing.record.fileType != fileType {
          return id, false;
        }
        existing := existing.(
          record := existing.record.(name := name, description := description, kind := Artifact, fileType := fileType),
          purposes := existing.purposes + {Output});
        entries := entries[id := existing];
        return id, true;
      }
      var record := Record(newID, name, path, description, Artifact, fileType, Output, "");
      entries := entries[newID := Entry(record, w, "", "", {Output})];
      order := order + [newID];
      paths := paths[(w.dir, path) := newID];
      return newID, true;
    }

    /** Registers one readable, non-empty file as evidence.  `created` is reported once per
        artifact: exactly when the evidence purpose is new to it. */
    method RegisterEvidence(w: Workspace, path: string, source: string, description: string, newID: string)
      returns (id: string, created: bool, accepted: bool)
      requires Consistent(Value()) && newID !in entries
      modifies this
      ensures Consistent(Value())
      ensures Value() == Registered(old(Value()), w, path, source, description, newID)
      ensures accepted ==> id in EvidenceIDs(Value()) && KeyOf(entries[id]) == (w.dir, path)
      ensures created <==> accepted && id !in old(EvidenceIDs(Value()))
      ensures EvidenceIDs(Value()) == old(EvidenceIDs(Value())) + (if created then {id} else {})
      ensures AllKept(old(Value()), Value())
      ensures created ==> OnlyEntry(old(Value()), Value(), id)
                          && RegisteredAs(old(Found(entries, id)), entries[id], source, description)
      ensures !created ==> Value() == old(Value())
    {
      RegisteredKeeps(Value(), w, path, source, description, newID);
      RegisteredEvidence(Value(), w, path, source, description, newID);
      RegisteredRecord(Value(), w, path, source, description, newID);
      hide AllKept, OnlyEntry, RegisteredAs, Keeps;
      var key := (w.dir, path);
      if key in paths {
        id := paths[key];
        var existing := entries[id];
        if existing.record.fileType != RegularFile {
          return id, false, false;
        }
        if Evidence in existing.purposes {
          return id, false, true;
        }
        if existing.record.description == "" {
          existing := existing.(record := existing.record.(description := description));
        }
        existing := existing.(record := existing.record.(path := path, source := source, purpose := Evidence),
                              purposes := existing.purposes + {Evidence});
        entries := entries[id := existing];
        return id, true, true;
      }
      var record := Record(newID, "", path, description, Artifact, RegularFile, Evidence, source);
      entries := entries[newID := Entry(record, w, "", "", {Evidence})];
      order := order + [newID];
      paths := paths[key := newID];
      return newID, true, true;
    }

    /** One visit of the directory walk. */
    method ListFile(parent: string, rel: string, newID: string) returns (found: Option<Record>)
      requires Resolves(Value()) && parent in entries
      modifies this
      ensures Value() == ListOne(old(Value()), parent, rel, newID)
      ensures ByParent(parent, rel) in children && found == RecordOf(Value(), children[ByParent(parent, rel)])
    {
      var p := entries[parent];
      var child;
      if ByParent(parent, rel) in children {
        child := children[ByParent(parent, rel)];
      } else {
        var key := (p.workspace.dir, Join(p.record.path, rel));
        if key in paths {
          child := paths[key];
          entries := entries[child := Adopt(entries[child], p, rel)];
        } else {
          child := newID;
          entries := entries[child := NewChild(p, rel, child)];
          order := order + [child];
          paths := paths[key := child];
        }
        children := children[ByParent(parent, rel) := child];
      }
      found := if child in entries then Some(entries[child].record) else None;
    }

    /** Lists the regular files of a declared directory, `rels[i]` being offered the new ID
        `newIDs[i]`, and sorts what it answers with by name. */
    method ListDirectoryFiles(parent: string, rels: seq<string>, newIDs: seq<string>)
      returns (found: seq<Option<Record>>, accepted: bool)
      requires Resolves(Value()) && |newIDs| == |rels|
      modifies this
      ensures Resolves(Value())
      ensures accepted <==> parent in old(entries) && old(entries)[parent].record.kind == Artifact
                            && old(entries)[parent].record.fileType == Directory
      ensures !accepted ==> Value() == old(Value())
      ensures accepted ==> Value() == Listed(old(Value()), parent, rels, newIDs)
      ensures accepted ==> ByName(found) && multiset(found) == multiset(Answers(old(Value()), parent, rels, newIDs))
    {
      found := [];
      ghost var ix := Value();
      if parent !in entries {
        return found, false;
      }
      if entries[parent].record.kind != Artifact || entries[parent].record.fileType != Directory {
        return found, false;
      }
      for i := 0 to |rels|
        invariant Value() == Listed(ix, parent, rels[..i], newIDs[..i])
        invariant found == Answers(ix, parent, rels[..i], newIDs[..i])
      {
        assert rels[..i + 1][..i] == rels[..i] && newIDs[..i + 1][..i] == newIDs[..i];
        var record := ListFile(parent, rels[i], newIDs[i]);
        found := found + [record];
      }
      assert rels[..|rels|] == rels && newIDs[..|rels|] == newIDs;
      SortsByName(found);
      found := SortedByName(found);
      accepted := true;
    }

    /** Replaces the records of one workspace by a snapshot's, or fails without a trace. */
    method RestoreWorkspace(w: Workspace, saved: seq<SavedEntry>) returns (accepted: bool)
      requires Synced(Value())
      modifies this
      ensures Synced(Value())
      ensures accepted <==> Restorable(old(Value()), w, saved)
      ensures !accepted ==> Value() == old(Value())
      ensures accepted ==> Value() == RestoredIndex(old(Value()), w, saved)
    {
      var staged := new ArtifactRegistry();
      accepted := Stage(w, saved, staged);
      if accepted {
        Empty(w);
        AdmitAllShape(EMPTY, saved);
        AdmitAllShape(Value(), saved);
        Append(staged.order, staged.entries, saved);
      }
    }

    /** The checks that precede any change: restores `saved` into a registry of its own and
        compares it with this one. */
    method Stage(w: Workspace, saved: seq<SavedEntry>, staged: ArtifactRegistry) returns (accepted: bool)
      requires staged != this && staged.Value() == EMPTY
      modifies staged
      ensures accepted <==> Restorable(Value(), w, saved)
      ensures accepted ==> staged.Value() == AdmitAll(EMPTY, saved)
    {
      accepted := NoneForeign(w, saved);
      if !accepted {
        return;
      }
      accepted := staged.Restore(saved);
      if !accepted {
        return;
      }
      StagedOrder(saved);
      accepted := NoneTaken(w, staged.order, saved);
    }

    static method NoneForeign(w: Workspace, saved: seq<SavedEntry>) returns (ok: bool)
      ensures ok <==> forall k :: 0 <= k < |saved| ==> saved[k].workspace.dir == w.dir
    {
      for i := 0 to |saved|
        invariant forall k :: 0 <= k < i ==> saved[k].workspace.dir == w.dir
      {
        if saved[i].workspace.dir != w.dir {
          return false;
        }
      }
      return true;
    }

    method NoneTaken(w: Workspace, ids: seq<string>, ghost saved: seq<SavedEntry>) returns (ok: bool)
      requires ids == Ids(saved)
      ensures ok <==> NoneOwnedElsewhere(entries, w, saved)
    {
      for i := 0 to |ids|
        invariant NoneOwnedElsewhere(entries, w, saved[..i])
      {
        assert ids[i] == saved[i].record.id;
        if ids[i] in entries && entries[ids[i]].workspace.dir != w.dir {
          return false;
        }
      }
      return true;
    }

    /** Adds the staged entries in their order. */
    method Append(ids: seq<string>, items: map<string, Entry>, ghost saved: seq<SavedEntry>)
      requires ids == Ids(saved)
      requires forall i :: 0 <= i < |saved| ==>
                 saved[i].record.id in items && items[saved[i].record.id] == Unsave(saved[i])
      modifies this
      ensures Value() == AdmitAll(old(Value()), saved)
    {
      for i := 0 to |ids|
        invariant Value() == AdmitAll(old(Value()), saved[..i])
      {
        var id := ids[i];
        var item := items[id];
        assert saved[..i + 1][..i] == saved[..i];
        entries := entries[id := item];
        order := order + [id];
        paths := paths[KeyOf(item) := id];
        if item.directoryRoot != "" && item.relativePath != "" {
          children := children[ByRoot(item.workspace.dir, item.directoryRoot, item.relativePath) := id];
        }
      }
      assert saved[..|saved|] == saved;
    }

    /** The deletion sweep of `RestoreWorkspace`. */
    method Empty(w: Workspace)
      requires Synced(Value())
      modifies this
      ensures Value() == Without(old(Value()), Owned(old(Value()), w.dir))
                           .(order := Select(old(entries), old(order), Outside(w.dir)))
    {
      var ids := order;
      ghost var ix := Value();
      var kept := Sweep(w, ids);
      SweptIsWithout(ix, ids, w.dir);
      assert Owned(ix, w.dir) == set id | id in ids && ix.entries[id].workspace.dir == w.dir;
      order := kept;
    }

    method Sweep(w: Workspace, ids: seq<string>) returns (kept: seq<string>)
      requires forall id :: id in ids ==> id in entries
      modifies this
      ensures kept == Select(old(entries), ids, Outside(w.dir))
      ensures Value() == Swept(old(Value()), ids, w.dir)
    {
      kept := [];
      ghost var ix := Value();
      for i := 0 to |ids|
        invariant kept == Select(ix.entries, ids[..i], Outside(w.dir))
        invariant Value() == Swept(ix, ids[..i], w.dir)
      {
        assert ids[..i + 1][..i] == ids[..i] && ids[i] in ids;
        SweptAgrees(ix, ids[..i], w.dir, ids[i]);
        if ids[i] in entries {
          var item := entries[ids[i]];
          if item.workspace.dir != w.dir {
            kept := kept + [ids[i]];
          } else {
            entries := entries - {ids[i]};
            paths := paths - {KeyOf(item)};
            children := children - ChildKeysOf(item);
          }
        }
      }
      assert ids[..|ids|] == ids;
    }

    /** Replaces the whole registry by a snapshot, or fails without a trace. */
    method Restore(saved: seq<SavedEntry>) returns (accepted: bool)
      modifies this
      ensures accepted <==> WellFormed(saved)
      ensures Value() == if accepted then AdmitAll(EMPTY, saved) else old(Value())
    {
      hide StagedTo, WellFormed, AdmitAll, Admit, Unsave, Blank;
      var staged := EMPTY;
      NothingStaged(saved);
      for i := 0 to |saved|
        invariant Value() == old(Value()) && StagedTo(saved, i, staged)
      {
        var id := saved[i].record.id;
        StagesOneMore(saved, i, staged);
        if Blank(id) {
          return false;
        }
        if id in staged.entries {
          return false;
        }
        staged := Admit(staged, Unsave(saved[i]));
      }
      AllStaged(saved, staged);
      entries, order, paths, children := staged.entries, staged.order, staged.paths, staged.children;
      accepted := true;
    }
  }
}
