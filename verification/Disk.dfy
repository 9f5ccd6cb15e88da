/** What survives a process: the checkpoints directory of one store and the workspace
    trees, changed by atomic filesystem steps.  A crash may fall between any two steps,
    so the object that performs them keeps every intermediate image.

    Documents are kept decoded (the JSON codec round-trips) and a digest remembers what
    it was taken from (SHA-256 is injective). */
module Disk {
  import opened Registry
  import opened Unicode

  type Rel = seq<string>

  datatype Json = Document(text: string) | NotJson(text: string)
  datatype Status = Started | Completed
  datatype UnitState = UnitState(status: Status, result: Json)

  datatype Data =
    | Bytes(text: string)
    | StateDoc(state: State)
    | ManifestDoc(state: State, sum: Digest)
  datatype Digest = NoSum | Sha(of: Data)

  datatype CopiedFile = CopiedFile(path: Rel, directory: bool, sum: Digest)
  datatype WorkspaceCopy = WorkspaceCopy(path: Workspace, archive: Rel, entries: seq<CopiedFile>)
  datatype State = State(version: int, id: string, registry: seq<SavedEntry>, payload: UnitState,
                         roots: seq<Workspace>, workspaces: seq<WorkspaceCopy>)

  datatype Node = Dir | File(data: Data)
  type Tree = map<Rel, Node>
  datatype RootEntry = Folder(tree: Tree) | Single(data: Data)
  type Root = map<string, RootEntry>
  datatype Image = Image(root: Root, work: map<string, Tree>)

  /** Where a tree lives: in a folder of the checkpoints directory, or as a workspace. */
  datatype Place = InRoot(name: string) | Work(dir: string)

  /** A missing folder reads as an empty tree. */
  function TreeAt(image: Image, place: Place): Tree {
    match place
    case InRoot(name) =>
      if name in image.root && image.root[name].Folder? then image.root[name].tree else map[]
    case Work(dir) => if dir in image.work then image.work[dir] else map[]
  }

  function WithTree(image: Image, place: Place, tree: Tree): Image {
    match place
    case InRoot(name) => image.(root := image.root[name := Folder(tree)])
    case Work(dir) => image.(work := image.work[dir := tree])
  }

  /** Paths that a directory walk can report: relative, and not escaping upwards. */
  predicate Walkable(rel: Rel) {
    rel != [] && rel[0] != "" && rel[0] != ".."
  }

  /** `validateRelativePath`, which also refuses a path of white space only. */
  predicate ValidRel(rel: Rel) {
    Walkable(rel) && !(|rel| == 1 && Blank(rel[0]))
  }

  /** Every node has its parents. */
  ghost predicate Closed(tree: Tree) {
    forall rel :: rel in tree ==>
      Walkable(rel) && (|rel| > 1 ==> rel[..|rel| - 1] in tree && tree[rel[..|rel| - 1]].Dir?)
  }

  /** No file and no directory at the top of the tree has a name of white space only. */
  ghost predicate Plain(tree: Tree) {
    forall rel :: rel in tree && |rel| == 1 ==> !Blank(rel[0])
  }

  /** `other` is `base` with at most the tree at `place` changed. */
  ghost predicate OnlyAt(base: Image, other: Image, place: Place) {
    match place
    case InRoot(name) => other.work == base.work && other.root - {name} == base.root - {name}
    case Work(dir) => other.root == base.root && other.work - {dir} == base.work - {dir}
  }

  /** `after` continues the history `before`, and every new image differs from `base` at
      `place` only. */
  ghost predicate Confined(before: seq<Image>, after: seq<Image>, base: Image, place: Place) {
    && |before| <= |after| && after[..|before|] == before
    && forall k :: |before| <= k < |after| ==> OnlyAt(base, after[k], place)
  }

  lemma ConfinedTransitive(h0: seq<Image>, h1: seq<Image>, h2: seq<Image>, base: Image, mid: Image, place: Place)
    requires Confined(h0, h1, base, place) && OnlyAt(base, mid, place) && Confined(h1, h2, mid, place)
    ensures Confined(h0, h2, base, place)
  {
    assert h2[..|h0|] == h2[..|h1|][..|h0|];
    forall k | |h0| <= k < |h2| ensures OnlyAt(base, h2[k], place) {
      if k < |h1| {
        assert h2[k] == h2[..|h1|][k] == h1[k];
      }
    }
  }

  /** Only `rel` itself and missing directories above it may differ. */
  ghost predicate TouchedAt(before: Tree, after: Tree, rel: Rel) {
    && (forall p :: p in before && p != rel ==> p in after && after[p] == before[p])
    && (forall p :: p in after && p !in before && p != rel ==> p != [] && p <= rel && after[p] == Dir)
  }

  lemma OnlyAtTransitive(base: Image, mid: Image, image: Image, place: Place)
    requires OnlyAt(base, mid, place) && OnlyAt(mid, image, place)
    ensures OnlyAt(base, image, place)
  {
  }

  /** The parents of `rel` first, then `rel` itself. */
  lemma OverwrittenTouches(before: Tree, parents: Tree, after: Tree, rel: Rel)
    requires forall p :: p in before ==> p in parents && parents[p] == before[p]
    requires forall p :: p in parents && p !in before ==> p != [] && p <= rel && parents[p] == Dir
    requires after - {rel} == parents - {rel}
    ensures TouchedAt(before, after, rel)
  {
    forall p | p != rel ensures (p in after <==> p in parents) && (p in after ==> after[p] == parents[p]) {
      assert p in after <==> p in after - {rel};
      assert p in parents <==> p in parents - {rel};
    }
  }

  class FileSystem {
    var image: Image
    ghost var history: seq<Image>

    ghost predicate Valid()
      reads this
    {
      history != [] && history[|history| - 1] == image
    }

    constructor (start: Image)
      ensures Valid() && image == start && history == [start]
    {
      image, history := start, [start];
    }

    /** One atomic step. */
    method Step(next: Image)
      requires Valid()
      modifies this
      ensures Valid() && image == next && history == old(history) + [next]
    {
      image := next;
      history := history + [next];
    }

    /** `os.MkdirAll`: creates the missing directories of a path one after the other and
        fails where a file is in the way. */
    method MakeDirs(place: Place, rel: Rel) returns (ok: bool)
      requires Valid()
      modifies this
      ensures Valid() && Confined(old(history), history, old(image), place)
      ensures OnlyAt(old(image), image, place)
      ensures forall p :: p in TreeAt(old(image), place) ==>
                p in TreeAt(image, place) && TreeAt(image, place)[p] == TreeAt(old(image), place)[p]
      ensures forall p :: p in TreeAt(image, place) && p !in TreeAt(old(image), place) ==>
                p != [] && p <= rel && TreeAt(image, place)[p] == Dir
      ensures ok ==> forall i :: 1 <= i <= |rel| ==>
                rel[..i] in TreeAt(image, place) && TreeAt(image, place)[rel[..i]] == Dir
    {
      var tree := TreeAt(image, place);
      for i := 1 to |rel| + 1
        invariant Valid() && Confined(old(history), history, old(image), place)
        invariant OnlyAt(old(image), image, place) && TreeAt(image, place) == tree
        invariant forall p :: p in TreeAt(old(image), place) ==> p in tree && tree[p] == TreeAt(old(image), place)[p]
        invariant forall p :: p in tree && p !in TreeAt(old(image), place) ==> p != [] && p <= rel && tree[p] == Dir
        invariant forall j :: 1 <= j < i ==> rel[..j] in tree && tree[rel[..j]] == Dir
      {
        var fails: bool := *;
        if fails {
          return false;
        }
        if rel[..i] !in tree {
          tree := tree[rel[..i] := Dir];
          Step(WithTree(image, place, tree));
        } else if tree[rel[..i]].File? {
          return false;
        }
      }
      ok := true;
    }

    /** Creates or replaces one file: its parents, then any torn content, then the whole. */
    method WriteFile(place: Place, rel: Rel, data: Data) returns (ok: bool)
      requires Valid() && rel != []
      modifies this
      ensures Valid() && Confined(old(history), history, old(image), place)
      ensures OnlyAt(old(image), image, place)
      ensures TouchedAt(TreeAt(old(image), place), TreeAt(image, place), rel)
      ensures ok ==> rel in TreeAt(image, place) && TreeAt(image, place)[rel] == File(data)
    {
      ok := MakeDirs(place, rel[..|rel| - 1]);
      var tree := TreeAt(image, place);
      if !ok || (rel in tree && tree[rel].Dir?) {
        return false;
      }
      hide Confined, OnlyAt, TreeAt, TouchedAt;
      ghost var h1, mid := history, image;
      ok := Overwrite(place, rel, data);
      ConfinedTransitive(old(history), h1, history, old(image), mid, place);
      OnlyAtTransitive(old(image), mid, image, place);
      OverwrittenTouches(TreeAt(old(image), place), tree, TreeAt(image, place), rel);
    }

    /** `os.OpenFile` with truncation, then the write. */
    method Overwrite(place: Place, rel: Rel, data: Data) returns (ok: bool)
      requires Valid()
      modifies this
      ensures Valid() && Confined(old(history), history, old(image), place)
      ensures OnlyAt(old(image), image, place)
      ensures TreeAt(image, place) - {rel} == TreeAt(old(image), place) - {rel}
      ensures ok ==> rel in TreeAt(image, place) && TreeAt(image, place)[rel] == File(data)
    {
      var tree := TreeAt(image, place);
      var torn: Data := *;
      Step(WithTree(image, place, tree[rel := File(torn)]));
      ok := *;
      if ok {
        Step(WithTree(image, place, tree[rel := File(data)]));
      }
    }

    /** Removes every node below `place`, in whatever order, possibly not all of them. */
    method Clear(place: Place) returns (ok: bool)
      requires Valid()
      modifies this
      ensures Valid() && Confined(old(history), history, old(image), place)
      ensures OnlyAt(old(image), image, place)
      ensures ok ==> TreeAt(image, place) == map[]
    {
      var tree := TreeAt(image, place);
      while tree != map[]
        invariant Valid() && Confined(old(history), history, old(image), place)
        invariant OnlyAt(old(image), image, place) && TreeAt(image, place) == tree
        decreases |tree|
      {
        var fails: bool := *;
        if fails {
          return false;
        }
        var rel :| rel in tree;
        tree := tree - {rel};
        Step(WithTree(image, place, tree));
      }
      ok := true;
    }

    /** `os.RemoveAll` of a folder of the checkpoints directory. */
    method RemoveFolder(name: string) returns (ok: bool)
      requires Valid()
      modifies this
      ensures Valid() && Confined(old(history), history, old(image), InRoot(name))
      ensures OnlyAt(old(image), image, InRoot(name))
      ensures ok ==> name !in image.root
    {
      if name !in image.root {
        return true;
      }
      ok := Clear(InRoot(name));
      if ok {
        Step(image.(root := image.root - {name}));
      }
    }
  }
}
