/** The durable unit transaction (internal/checkpoint/unit.go) and the resume switch at the
    top of `newResearchBlock` (internal/cli/runtime_workflow.go): one research block is begun,
    worked on and completed, with a crash possible after every filesystem step. */
module Unit {
  import opened Options
  import opened Unicode
  import opened Disk
  import opened Registry
  import opened Store

  datatype UnitLoad = Ready(state: UnitState) | Absent | Failed

  const STARTED := UnitState(Started, Document(""))

  /** What `Unit.Load` makes of a loaded checkpoint. */
  function Decode(loaded: LoadResult): UnitLoad {
    match loaded
    case NotExist => Absent
    case Broken => Failed
    case Loaded(state) =>
      if state.payload.status.Completed? && state.payload.result.NotJson? then Failed else Ready(state.payload)
  }

  /** The durable phase of a unit: not begun, begun from a tree and a registry slice, completed
      with a result and the tree and slice it left, or spoiled: its latest checkpoint was taken
      of a tree that is not plain and does not load. */
  datatype Phase =
    | Fresh
    | InProgress(tree: Tree, slice: seq<SavedEntry>)
    | Final(tree: Tree, slice: seq<SavedEntry>, result: Json)
    | Spoiled

  /** The phase that a published `Begin` or `Complete` stands for. */
  ghost function Begun(tree: Tree, slice: seq<SavedEntry>): Phase {
    if Plain(tree) then InProgress(tree, slice) else Spoiled
  }

  ghost function Ended(tree: Tree, slice: seq<SavedEntry>, result: Json): Phase {
    if Plain(tree) then Final(tree, slice, result) else Spoiled
  }

  /** The latest checkpoint records this tree, slice and payload for `dir`. */
  ghost predicate Reads(root: Root, dir: string, tree: Tree, slice: seq<SavedEntry>, payload: UnitState) {
    && Recorded(root, dir, tree)
    && Lookup(root).state.registry == slice && Lookup(root).state.payload == payload
  }

  /** What a published unit checkpoint reads back as. */
  ghost predicate Tells(root: Root, dir: string, tree: Tree, slice: seq<SavedEntry>, payload: UnitState) {
    if Plain(tree) then Reads(root, dir, tree, slice, payload) else Lookup(root) == Broken
  }

  ghost predicate InPhase(root: Root, dir: string, phase: Phase) {
    && Steady(root)
    && match phase
       case Fresh => Lookup(root) == NotExist
       case InProgress(tree, slice) => Reads(root, dir, tree, slice, STARTED) && Plain(tree)
       case Final(tree, slice, result) =>
         Reads(root, dir, tree, slice, UnitState(Completed, result)) && result.Document? && Plain(tree)
       case Spoiled => Lookup(root) == Broken
  }

  /** How far one life may take a unit: from `phase` with the workspace at `before` to `next`
      with the workspace at `after`. */
  ghost predicate Follows(phase: Phase, before: Tree, slice: seq<SavedEntry>, next: Phase, after: Tree) {
    match phase
    case Fresh =>
      || (next == Fresh && after == before)
      || next == Begun(before, slice)
      || (next.Final? && next.tree == after)
      || (next.Spoiled? && !Plain(after))
    case InProgress(_, _) => next == phase || (next.Final? && next.tree == after) || (next.Spoiled? && !Plain(after))
    case Final(_, _, _) => next == phase
    case Spoiled => next == phase
  }

  /** Where a life that starts from `image` may stand. */
  ghost predicate Startable(image: Image, dir: string, phase: Phase) {
    && InPhase(image.root, dir, phase)
    && ClosedWork(image.work - {dir}) && (phase.Fresh? ==> Closed(TreeAt(image, Work(dir))))
  }

  /** `after` may be what a crash leaves of a life that started from `before` in `phase`: no
      other workspace has changed, and the unit has come no further than `Follows` says. */
  ghost predicate MayLeave(before: Image, after: Image, dir: string, phase: Phase, slice: seq<SavedEntry>) {
    && after.work - {dir} == before.work - {dir}
    && Reaches(before, after, dir, phase, slice)
  }

  ghost predicate Reaches(before: Image, after: Image, dir: string, phase: Phase, slice: seq<SavedEntry>) {
    exists next :: InPhase(after.root, dir, next)
                   && Follows(phase, TreeAt(before, Work(dir)), slice, next, TreeAt(after, Work(dir)))
  }

  ghost predicate AllMayLeave(h0: seq<Image>, h: seq<Image>, base: Image, dir: string, phase: Phase,
                              slice: seq<SavedEntry>) {
    && |h0| <= |h| && h[..|h0|] == h0
    && forall k :: |h0| <= k < |h| ==> MayLeave(base, h[k], dir, phase, slice)
  }

  /** Images that show the same checkpoint in the same workspaces. */
  ghost predicate Quiet(h0: seq<Image>, h: seq<Image>, base: Image) {
    && |h0| <= |h| && h[..|h0|] == h0
    && forall k :: |h0| <= k < |h| ==>
         Steady(h[k].root) && Lookup(h[k].root) == Lookup(base.root) && h[k].work == base.work
  }

  // ------------------------------------------------------------ many lives

  /** Life `k` starts from `images[k]` with its registry at `slices[k]` and is cut short, or
      ends, at `images[k + 1]`: all that `Block.Run` promises, and nothing else. */
  ghost predicate Lives(images: seq<Image>, slices: seq<seq<SavedEntry>>, dir: string) {
    && |images| == |slices| > 0 && Startable(images[0], dir, Fresh)
    && forall k, phase :: 0 <= k < |images| - 1 && Startable(images[k], dir, phase) ==>
         MayLeave(images[k], images[k + 1], dir, phase, slices[k])
  }

  /** What a life leaves, another life can start from. */
  lemma NextStarts(before: Image, after: Image, dir: string, phase: Phase, slice: seq<SavedEntry>) returns (next: Phase)
    requires Startable(before, dir, phase) && MayLeave(before, after, dir, phase, slice)
    ensures Startable(after, dir, next)
    ensures Follows(phase, TreeAt(before, Work(dir)), slice, next, TreeAt(after, Work(dir)))
  {
    next :| InPhase(after.root, dir, next)
            && Follows(phase, TreeAt(before, Work(dir)), slice, next, TreeAt(after, Work(dir)));
  }

  /** The phases that images in turn show. */
  ghost predicate Shows(images: seq<Image>, slices: seq<seq<SavedEntry>>, dir: string, phases: seq<Phase>) {
    Chained(images, slices, dir, phases) && Standing(images, dir, phases)
  }

  ghost predicate Chained(images: seq<Image>, slices: seq<seq<SavedEntry>>, dir: string, phases: seq<Phase>) {
    && 0 < |phases| <= |images| == |slices| && phases[0] == Fresh
    && forall k :: 0 < k < |phases| ==>
         Follows(phases[k - 1], TreeAt(images[k - 1], Work(dir)), slices[k - 1], phases[k],
                 TreeAt(images[k], Work(dir)))
  }

  ghost predicate Standing(images: seq<Image>, dir: string, phases: seq<Phase>) {
    && |phases| <= |images|
    && forall k :: 0 <= k < |phases| ==>
         Startable(images[k], dir, phases[k]) && images[k].work - {dir} == images[0].work - {dir}
  }

  lemma ChainedOneMore(images: seq<Image>, slices: seq<seq<SavedEntry>>, dir: string, before: seq<Phase>, next: Phase)
    requires Chained(images, slices, dir, before) && |before| < |images|
    requires Follows(before[|before| - 1], TreeAt(images[|before| - 1], Work(dir)), slices[|before| - 1], next,
                     TreeAt(images[|before|], Work(dir)))
    ensures Chained(images, slices, dir, before + [next])
  {
    hide Follows, TreeAt;
    var phases := before + [next];
    forall k | 0 < k < |phases|
      ensures Follows(phases[k - 1], TreeAt(images[k - 1], Work(dir)), slices[k - 1], phases[k],
                      TreeAt(images[k], Work(dir)))
    {
      assert phases[k - 1] == before[k - 1];
      if k < |before| {
        assert phases[k] == before[k];
      }
    }
  }

  lemma StandingOneMore(images: seq<Image>, dir: string, before: seq<Phase>, next: Phase)
    requires Standing(images, dir, before) && 0 < |before| < |images| && Startable(images[|before|], dir, next)
    requires images[|before|].work - {dir} == images[|before| - 1].work - {dir}
    ensures Standing(images, dir, before + [next])
  {
    hide Startable;
    var phases := before + [next];
    forall k | 0 <= k < |phases|
      ensures Startable(images[k], dir, phases[k]) && images[k].work - {dir} == images[0].work - {dir}
    {
      if k < |before| {
        assert phases[k] == before[k];
      }
    }
  }

  lemma {:induction false} PhasesOf(images: seq<Image>, slices: seq<seq<SavedEntry>>, dir: string, n: nat)
    returns (phases: seq<Phase>)
    requires Lives(images, slices, dir) && n < |images|
    ensures |phases| == n + 1 && Shows(images, slices, dir, phases)
  {
    if n == 0 {
      phases := [Fresh];
    } else {
      phases := PhasesOf(images, slices, dir, n - 1);
      var before := phases;
      var next := NextStarts(images[n - 1], images[n], dir, before[n - 1], slices[n - 1]);
      phases := before + [next];
      ChainedOneMore(images, slices, dir, before, next);
      StandingOneMore(images, dir, before, next);
    }
  }

  /** As long as the unit is unfinished it stands where it began, with the slice of a life that
      found it not begun. */
  lemma {:induction false} UnfinishedStaysPut(images: seq<Image>, slices: seq<seq<SavedEntry>>, dir: string,
                                              phases: seq<Phase>, i: nat)
    requires Chained(images, slices, dir, phases) && i < |phases|
    ensures phases[i].Fresh? ==> TreeAt(images[i], Work(dir)) == TreeAt(images[0], Work(dir))
    ensures phases[i].InProgress? ==> phases[i].tree == TreeAt(images[0], Work(dir))
    ensures phases[i].InProgress? ==> exists k :: 0 <= k < i && phases[k].Fresh? && slices[k] == phases[i].slice
  {
    if i > 0 {
      UnfinishedStaysPut(images, slices, dir, phases, i - 1);
      assert Follows(phases[i - 1], TreeAt(images[i - 1], Work(dir)), slices[i - 1], phases[i],
                     TreeAt(images[i], Work(dir)));
    }
  }

  /** Once finished it never changes again, and once begun it is never not begun. */
  lemma {:induction false} PhaseStays(images: seq<Image>, slices: seq<seq<SavedEntry>>, dir: string,
                                      phases: seq<Phase>, j: nat, i: nat)
    requires Chained(images, slices, dir, phases) && j <= i < |phases|
    ensures phases[j].Final? || phases[j].Spoiled? ==> phases[i] == phases[j]
    ensures phases[j].InProgress? ==> phases[i] == phases[j] || phases[i].Final? || phases[i].Spoiled?
  {
    if j < i {
      PhaseStays(images, slices, dir, phases, j, i - 1);
      assert Follows(phases[i - 1], TreeAt(images[i - 1], Work(dir)), slices[i - 1], phases[i],
                     TreeAt(images[i], Work(dir)));
    }
  }

  /** It is only ever spoiled by a tree that is not plain. */
  lemma {:induction false} SpoiledByTree(images: seq<Image>, slices: seq<seq<SavedEntry>>, dir: string,
                                         phases: seq<Phase>, i: nat)
    requires Chained(images, slices, dir, phases) && i < |phases| && phases[i].Spoiled?
    ensures exists k :: 0 <= k <= i && !Plain(TreeAt(images[k], Work(dir)))
  {
    if i > 0 {
      assert Follows(phases[i - 1], TreeAt(images[i - 1], Work(dir)), slices[i - 1], phases[i],
                     TreeAt(images[i], Work(dir)));
      if phases[i - 1].Spoiled? {
        SpoiledByTree(images, slices, dir, phases, i - 1);
      }
    }
  }

  ghost predicate Shown(root: Root, status: Status) {
    Lookup(root).Loaded? && Lookup(root).state.payload.status == status
  }

  /** The transaction over any number of interrupted lives, read off the disk alone.  No other
      workspace changes.  An unfinished unit is begun from exactly the tree before the first
      life and the registry slice of a life that found nothing begun, and stays so until it
      completes.  A durable completion stays readable for good.  A checkpoint that does not load
      comes from a tree that is not plain. */
  lemma UnitTransaction(images: seq<Image>, slices: seq<seq<SavedEntry>>, dir: string, j: nat, i: nat)
    requires Lives(images, slices, dir) && j <= i < |images|
    ensures images[i].work - {dir} == images[0].work - {dir} && exists phase :: Startable(images[i], dir, phase)
    ensures Lookup(images[i].root) == NotExist ==> TreeAt(images[i], Work(dir)) == TreeAt(images[0], Work(dir))
    ensures Shown(images[i].root, Started) ==>
              && Recorded(images[i].root, dir, TreeAt(images[0], Work(dir)))
              && exists k :: 0 <= k < i && Lookup(images[k].root) == NotExist
                             && Lookup(images[i].root).state.registry == slices[k]
    ensures Shown(images[j].root, Started) && Shown(images[i].root, Started) ==>
              Lookup(images[i].root).state.registry == Lookup(images[j].root).state.registry
    ensures Shown(images[j].root, Completed) ==>
              && Shown(images[i].root, Completed)
              && Lookup(images[i].root).state.payload == Lookup(images[j].root).state.payload
              && Lookup(images[i].root).state.registry == Lookup(images[j].root).state.registry
              && exists tree :: Recorded(images[j].root, dir, tree) && Recorded(images[i].root, dir, tree)
    ensures Lookup(images[i].root) == Broken ==> exists k :: 0 <= k <= i && !Plain(TreeAt(images[k], Work(dir)))
  {
    var phases := PhasesOf(images, slices, dir, i);
    UnfinishedStaysPut(images, slices, dir, phases, i);
    PhaseStays(images, slices, dir, phases, j, i);
    assert Startable(images[i], dir, phases[i]) && Startable(images[j], dir, phases[j]);
    if Shown(images[i].root, Started) {
      var k :| 0 <= k < i && phases[k].Fresh? && slices[k] == phases[i].slice;
      assert Startable(images[k], dir, phases[k]);
    }
    if Lookup(images[i].root) == Broken {
      SpoiledByTree(images, slices, dir, phases, i);
    }
    if Shown(images[j].root, Completed) {
      assert phases[i] == phases[j];
      assert Recorded(images[j].root, dir, phases[j].tree) && Recorded(images[i].root, dir, phases[j].tree);
    }
  }

  // ------------------------------------------------------------------ lemmas

  lemma SameLookup(root: Root, other: Root, dir: string, phase: Phase)
    requires InPhase(root, dir, phase) && Steady(other) && Lookup(other) == Lookup(root)
    ensures InPhase(other, dir, phase)
  {
  }

  lemma Extend(h0: seq<Image>, h1: seq<Image>, h2: seq<Image>, base: Image, dir: string, phase: Phase,
               slice: seq<SavedEntry>)
    requires AllMayLeave(h0, h1, base, dir, phase, slice)
    requires |h1| <= |h2| && h2[..|h1|] == h1
    requires forall k :: |h1| <= k < |h2| ==> MayLeave(base, h2[k], dir, phase, slice)
    ensures AllMayLeave(h0, h2, base, dir, phase, slice)
  {
    assert h2[..|h0|] == h2[..|h1|][..|h0|];
    forall k | |h0| <= k < |h2| ensures MayLeave(base, h2[k], dir, phase, slice) {
      if k < |h1| {
        assert h2[k] == h2[..|h1|][k] == h1[k];
      }
    }
  }

  /** A published unit checkpoint records the workspace tree and the registry slice, when the
      tree is plain, and does not load otherwise. */
  lemma CommittedTells(base: Image, image: Image, committed: State, dir: string)
    requires Published(base, image, committed)
    requires committed.roots == [At(dir, 0)] && Portable(committed.registry, dir)
    requires dir in base.work && Closed(base.work[dir])
    ensures Tells(image.root, dir, base.work[dir], committed.registry, committed.payload)
  {
    PlainHere(committed.registry, committed.roots, dir, base.work);
    CopiesLieHere(committed.workspaces, committed.registry, committed.roots, dir);
  }

  lemma PlainHere(slice: seq<SavedEntry>, roots: seq<Workspace>, dir: string, work: map<string, Tree>)
    requires roots == [At(dir, 0)] && Portable(slice, dir) && dir in work
    ensures PlainWork(Wanted(slice, roots), work) <==> Plain(work[dir])
  {
    assert At(dir, 0) in Wanted(slice, roots);
  }

  lemma CopiesLieHere(copies: seq<WorkspaceCopy>, slice: seq<SavedEntry>, roots: seq<Workspace>, dir: string)
    requires CopiedPaths(copies) == Wanted(slice, roots) && roots == [At(dir, 0)] && Portable(slice, dir)
    ensures copies != [] && forall i :: 0 <= i < |copies| ==> copies[i].path.dir == dir
  {
    assert At(dir, 0) in CopiedPaths(copies);
    forall i | 0 <= i < |copies| ensures copies[i].path.dir == dir {
      assert copies[i].path in CopiedPaths(copies);
      assert copies[i].path in Wanted(slice, roots);
    }
  }

  lemma CommittingAtFirst(base: Image, mid: Image, dir: string, slice: seq<SavedEntry>, payload: UnitState)
    requires mid.root == base.root && Steady(base.root) && mid.work - {dir} == base.work - {dir}
    requires TreeAt(mid, Work(dir)) == TreeAt(base, Work(dir))
    ensures Committing(base, mid, dir, slice, payload)
  {
  }

  lemma CommittingStep(base: Image, mid: Image, image: Image, committed: State, dir: string)
    requires OldOrNew(mid, image, committed) && mid.root == base.root && mid.work - {dir} == base.work - {dir}
    requires dir in mid.work && Closed(mid.work[dir]) && TreeAt(mid, Work(dir)) == TreeAt(base, Work(dir))
    requires committed.roots == [At(dir, 0)] && Portable(committed.registry, dir)
    ensures Committing(base, image, dir, committed.registry, committed.payload)
  {
    if Published(mid, image, committed) {
      CommittedTells(mid, image, committed, dir);
    }
  }

  ghost predicate Ends(history: seq<Image>, image: Image) {
    history != [] && history[|history| - 1] == image
  }

  /** Every image of a unit commit: `h1` ends where the workspace stands ready in `mid`. */
  lemma CommittingHistory(base: Image, mid: Image, image: Image, h0: seq<Image>, h1: seq<Image>, h2: seq<Image>,
                          committed: State, dir: string)
    requires mid.root == base.root && Steady(base.root) && mid.work - {dir} == base.work - {dir}
    requires dir in mid.work && Closed(mid.work[dir]) && TreeAt(mid, Work(dir)) == TreeAt(base, Work(dir))
    requires committed.roots == [At(dir, 0)] && Portable(committed.registry, dir)
    requires |h0| <= |h1| <= |h2| && h1[..|h0|] == h0 && h2[..|h1|] == h1 && Ends(h1, mid) && Ends(h2, image)
    requires forall k :: |h0| <= k < |h1| ==> h1[k] == mid
    requires forall k :: |h1| <= k < |h2| ==> OldOrNew(mid, h2[k], committed)
    ensures h2[..|h0|] == h0 && Committing(base, image, dir, committed.registry, committed.payload)
    ensures forall k :: |h0| <= k < |h2| ==> Committing(base, h2[k], dir, committed.registry, committed.payload)
  {
    hide Committing, OldOrNew, Steady, Portable, Closed;
    CommittingAtFirst(base, mid, dir, committed.registry, committed.payload);
    assert h2[..|h0|] == h2[..|h1|][..|h0|];
    forall k | |h0| <= k < |h2| ensures Committing(base, h2[k], dir, committed.registry, committed.payload) {
      if k < |h1| {
        assert h2[k] == h2[..|h1|][k] == h1[k];
      } else {
        CommittingStep(base, mid, h2[k], committed, dir);
      }
    }
    LastImage(h1, h2, mid, image);
  }

  /** The tree and slice a life in `phase` starts its work from. */
  ghost predicate EntersWith(phase: Phase, base: Image, dir: string, slice: seq<SavedEntry>, t: Tree,
                             s: seq<SavedEntry>) {
    match phase
    case Fresh => t == TreeAt(base, Work(dir)) && s == slice
    case InProgress(_, _) => phase == InProgress(t, s) && Plain(t)
    case Final(_, _, _) => false
    case Spoiled => false
  }

  /** Where `Begin` leaves a block that may work: begun from exactly the tree and the slice
      it has in front of it, which are those from before the unit, or spoiled. */
  ghost predicate Entered(base: Image, image: Image, dir: string, phase: Phase, slice: seq<SavedEntry>,
                          now: seq<SavedEntry>) {
    && InPhase(image.root, dir, Begun(TreeAt(image, Work(dir)), now)) && image.work - {dir} == base.work - {dir}
    && EntersWith(phase, base, dir, slice, TreeAt(image, Work(dir)), now)
    && ClosedWork(image.work)
  }

  /** The end of the work of a life that had begun from `t` and `s`. */
  ghost predicate Worked(h: seq<Image>, image: Image, base: Image, h0: seq<Image>, dir: string, phase: Phase,
                         slice: seq<SavedEntry>, t: Tree, s: seq<SavedEntry>) {
    && AllMayLeave(h0, h, base, dir, phase, slice) && EntersWith(phase, base, dir, slice, t, s)
    && InPhase(image.root, dir, Begun(t, s)) && ClosedWork(image.work) && image.work - {dir} == base.work - {dir}
  }

  lemma WorkStaysClosed(before: map<string, Tree>, after: map<string, Tree>, dir: string)
    requires ClosedWork(before) && after - {dir} == before - {dir} && (dir in after ==> Closed(after[dir]))
    ensures ClosedWork(after)
  {
    forall d | d in after ensures Closed(after[d]) {
      if d != dir {
        assert d in after - {dir} && d in before - {dir};
      }
    }
  }

  lemma QuietMayLeave(h0: seq<Image>, h: seq<Image>, base: Image, dir: string, phase: Phase, slice: seq<SavedEntry>)
    requires InPhase(base.root, dir, phase) && Quiet(h0, h, base)
    ensures AllMayLeave(h0, h, base, dir, phase, slice)
  {
    forall k | |h0| <= k < |h| ensures MayLeave(base, h[k], dir, phase, slice) {
      SameLookup(base.root, h[k].root, dir, phase);
    }
  }

  lemma RestoredMayLeave(h0: seq<Image>, h1: seq<Image>, h2: seq<Image>, base: Image, mid: Image,
                         dir: string, phase: Phase, slice: seq<SavedEntry>)
    requires AllMayLeave(h0, h1, base, dir, phase, slice) && |h1| <= |h2| && h2[..|h1|] == h1
    requires !phase.Fresh? && InPhase(mid.root, dir, phase) && mid.work - {dir} == base.work - {dir}
    requires forall k :: |h1| <= k < |h2| ==> Restored(mid, h2[k], dir)
    ensures AllMayLeave(h0, h2, base, dir, phase, slice)
  {
    forall k | |h1| <= k < |h2| ensures MayLeave(base, h2[k], dir, phase, slice) {
      SameLookup(mid.root, h2[k].root, dir, phase);
    }
    Extend(h0, h1, h2, base, dir, phase, slice);
  }

  lemma LastImage(h1: seq<Image>, h2: seq<Image>, mid: Image, image: Image)
    requires Ends(h1, mid) && Ends(h2, image) && |h1| <= |h2| && h2[..|h1|] == h1
    ensures image == mid || exists k :: |h1| <= k < |h2| && h2[k] == image
  {
    if |h1| == |h2| {
      assert h2 == h1;
    }
  }

  /** From `h0` on, every image restores `base`, the present one included. */
  ghost predicate RestoredOver(h0: seq<Image>, h: seq<Image>, base: Image, image: Image, dir: string) {
    && |h0| <= |h| && h[..|h0|] == h0 && Restored(base, image, dir)
    && forall k :: |h0| <= k < |h| ==> Restored(base, h[k], dir)
  }

  lemma RestoredHistory(h0: seq<Image>, h1: seq<Image>, h2: seq<Image>, base: Image, mid: Image, image: Image,
                        dir: string)
    requires RestoredOver(h0, h1, base, mid, dir) && Confined(h1, h2, mid, Work(dir))
    requires Ends(h1, mid) && Ends(h2, image)
    ensures RestoredOver(h0, h2, base, image, dir)
  {
    assert h2[..|h0|] == h2[..|h1|][..|h0|];
    forall k | |h0| <= k < |h2| ensures Restored(base, h2[k], dir) {
      if k < |h1| {
        assert h2[k] == h2[..|h1|][k] == h1[k];
      } else {
        assert OnlyAt(mid, h2[k], Work(dir));
      }
    }
    LastImage(h1, h2, mid, image);
  }

  lemma SameRecorded(before: Root, after: Root, dir: string, tree: Tree)
    requires Recorded(before, dir, tree) && Lookup(after) == Lookup(before)
    ensures Recorded(after, dir, tree)
  {
  }

  lemma QuietRestored(h0: seq<Image>, h: seq<Image>, base: Image, image: Image, dir: string)
    requires Quiet(h0, h, base) && Steady(image.root) && Lookup(image.root) == Lookup(base.root)
             && image.work == base.work
    ensures RestoredOver(h0, h, base, image, dir)
  {
  }

  lemma BegunMayLeave(h0: seq<Image>, h1: seq<Image>, h2: seq<Image>, base: Image, mid: Image,
                      dir: string, phase: Phase, slice: seq<SavedEntry>, t: Tree, s: seq<SavedEntry>)
    requires AllMayLeave(h0, h1, base, dir, phase, slice) && |h1| <= |h2| && h2[..|h1|] == h1
    requires InPhase(mid.root, dir, phase) && EntersWith(phase, base, dir, slice, t, s) && TreeAt(mid, Work(dir)) == t
    requires mid.work - {dir} == base.work - {dir}
    requires forall k :: |h1| <= k < |h2| ==> Committing(mid, h2[k], dir, s, STARTED)
    ensures AllMayLeave(h0, h2, base, dir, phase, slice)
  {
    forall k | |h1| <= k < |h2| ensures MayLeave(base, h2[k], dir, phase, slice) {
      if Lookup(h2[k].root) == Lookup(mid.root) {
        SameLookup(mid.root, h2[k].root, dir, phase);
      } else {
        assert InPhase(h2[k].root, dir, Begun(t, s));
      }
    }
    Extend(h0, h1, h2, base, dir, phase, slice);
  }

  lemma WorkedMayLeave(h0: seq<Image>, h1: seq<Image>, h2: seq<Image>, base: Image, mid: Image,
                       dir: string, phase: Phase, slice: seq<SavedEntry>, t: Tree, s: seq<SavedEntry>)
    requires AllMayLeave(h0, h1, base, dir, phase, slice) && Confined(h1, h2, mid, Work(dir))
    requires InPhase(mid.root, dir, Begun(t, s)) && EntersWith(phase, base, dir, slice, t, s)
    requires mid.work - {dir} == base.work - {dir}
    ensures AllMayLeave(h0, h2, base, dir, phase, slice)
  {
    forall k | |h1| <= k < |h2| ensures MayLeave(base, h2[k], dir, phase, slice) {
      assert OnlyAt(mid, h2[k], Work(dir));
      assert InPhase(h2[k].root, dir, Begun(t, s));
    }
    Extend(h0, h1, h2, base, dir, phase, slice);
  }

  lemma CompletedMayLeave(h0: seq<Image>, h1: seq<Image>, h2: seq<Image>, base: Image, mid: Image,
                          dir: string, phase: Phase, slice: seq<SavedEntry>, t: Tree, s: seq<SavedEntry>,
                          last: seq<SavedEntry>, result: Json)
    requires AllMayLeave(h0, h1, base, dir, phase, slice) && |h1| <= |h2| && h2[..|h1|] == h1
    requires InPhase(mid.root, dir, Begun(t, s)) && EntersWith(phase, base, dir, slice, t, s)
    requires mid.work - {dir} == base.work - {dir}
    requires forall k :: |h1| <= k < |h2| ==>
               result.Document? && Committing(mid, h2[k], dir, last, UnitState(Completed, result))
    ensures AllMayLeave(h0, h2, base, dir, phase, slice)
  {
    forall k | |h1| <= k < |h2| ensures MayLeave(base, h2[k], dir, phase, slice) {
      if Lookup(h2[k].root) == Lookup(mid.root) {
        SameLookup(mid.root, h2[k].root, dir, Begun(t, s));
      } else {
        assert InPhase(h2[k].root, dir, Ended(TreeAt(mid, Work(dir)), last, result));
      }
    }
    Extend(h0, h1, h2, base, dir, phase, slice);
  }

  // --------------------------------------------------------------- the object

  class Unit {
    const store: Store

    constructor (fs: FileSystem)
      ensures store.fs == fs
    {
      store := new Store(fs);
    }

    /** `Load`: sweeps interrupted staging folders, then reads the unit state. */
    method Load() returns (result: UnitLoad)
      requires store.fs.Valid() && Steady(store.fs.image.root)
      modifies store.fs
      ensures store.fs.Valid() && Quiet(old(store.fs.history), store.fs.history, old(store.fs.image))
      ensures Steady(store.fs.image.root) && Lookup(store.fs.image.root) == old(Lookup(store.fs.image.root))
      ensures store.fs.image.work == old(store.fs.image.work)
      ensures result == Failed || result == Decode(Lookup(store.fs.image.root))
    {
      ghost var base, h0 := store.fs.image, store.fs.history;
      var ok := store.CleanupStaging();
      forall k | |h0| <= k < |store.fs.history|
        ensures Steady(store.fs.history[k].root) && Lookup(store.fs.history[k].root) == Lookup(base.root)
      {
        PrunedLookup(base.root, store.fs.history[k].root);
      }
      PrunedLookup(base.root, store.fs.image.root);
      if !ok {
        return Failed;
      }
      var loaded := store.Load();
      result := Decode(loaded);
    }

    /** `commit`: creates the workspace and publishes its snapshot with the unit state. */
    method Commit(registry: ArtifactRegistry, w: Workspace, payload: UnitState) returns (ok: bool)
      requires store.fs.Valid() && Steady(store.fs.image.root) && ClosedWork(store.fs.image.work)
      requires Portable(SnapshotOf(registry.Value(), w), w.dir)
      modifies store.fs
      ensures store.fs.Valid() && |old(store.fs.history)| <= |store.fs.history|
      ensures store.fs.history[..|old(store.fs.history)|] == old(store.fs.history)
      ensures forall k :: |old(store.fs.history)| <= k < |store.fs.history| ==>
                Committing(old(store.fs.image), store.fs.history[k], w.dir, SnapshotOf(registry.Value(), w), payload)
      ensures Committing(old(store.fs.image), store.fs.image, w.dir, SnapshotOf(registry.Value(), w), payload)
      ensures ok ==> Tells(store.fs.image.root, w.dir, TreeAt(old(store.fs.image), Work(w.dir)),
                           SnapshotOf(registry.Value(), w), payload)
    {
      ok := *;
      if !ok {
        return;
      }
      ghost var base, h0 := store.fs.image, store.fs.history;
      if w.dir !in store.fs.image.work {
        store.fs.Step(WithTree(store.fs.image, Work(w.dir), map[]));
      }
      ok := Publish(registry, w, payload, base, h0);
    }

    method Publish(registry: ArtifactRegistry, w: Workspace, payload: UnitState, ghost base: Image,
                   ghost h0: seq<Image>)
      returns (ok: bool)
      requires store.fs.Valid() && Steady(base.root) && ClosedWork(store.fs.image.work)
      requires store.fs.image.root == base.root && w.dir in store.fs.image.work
      requires store.fs.image.work - {w.dir} == base.work - {w.dir}
      requires TreeAt(store.fs.image, Work(w.dir)) == TreeAt(base, Work(w.dir))
      requires Portable(SnapshotOf(registry.Value(), w), w.dir)
      requires |h0| <= |store.fs.history| && store.fs.history[..|h0|] == h0
      requires forall k :: |h0| <= k < |store.fs.history| ==> store.fs.history[k] == store.fs.image
      modifies store.fs
      ensures store.fs.Valid() && |h0| <= |store.fs.history| && store.fs.history[..|h0|] == h0
      ensures forall k :: |h0| <= k < |store.fs.history| ==>
                Committing(base, store.fs.history[k], w.dir, SnapshotOf(registry.Value(), w), payload)
      ensures Committing(base, store.fs.image, w.dir, SnapshotOf(registry.Value(), w), payload)
      ensures ok ==>
                Tells(store.fs.image.root, w.dir, TreeAt(base, Work(w.dir)), SnapshotOf(registry.Value(), w), payload)
    {
      hide Committing, Tells, Published, OldOrNew;
      ghost var mid, h1 := store.fs.image, store.fs.history;
      assert Ends(h1, mid);
      var slice := registry.SnapshotWorkspace(w);
      ghost var committed;
      ok, committed := store.Commit(State(0, "", slice, payload, [Clean(w)], []));
      ghost var h2, now := store.fs.history, store.fs.image;
      GeneratedIsUsable(committed.id);
      CommittingHistory(base, mid, now, h0, h1, h2, committed, w.dir);
      if ok {
        CommittedTells(mid, now, committed, w.dir);
      }
    }

    method Begin(registry: ArtifactRegistry, w: Workspace) returns (ok: bool)
      requires store.fs.Valid() && Steady(store.fs.image.root) && ClosedWork(store.fs.image.work)
      requires Portable(SnapshotOf(registry.Value(), w), w.dir)
      modifies store.fs
      ensures store.fs.Valid() && |old(store.fs.history)| <= |store.fs.history|
      ensures store.fs.history[..|old(store.fs.history)|] == old(store.fs.history)
      ensures forall k :: |old(store.fs.history)| <= k < |store.fs.history| ==>
                Committing(old(store.fs.image), store.fs.history[k], w.dir, SnapshotOf(registry.Value(), w), STARTED)
      ensures Committing(old(store.fs.image), store.fs.image, w.dir, SnapshotOf(registry.Value(), w), STARTED)
      ensures ok ==> Tells(store.fs.image.root, w.dir, TreeAt(old(store.fs.image), Work(w.dir)),
                           SnapshotOf(registry.Value(), w), STARTED)
    {
      ok := Commit(registry, w, STARTED);
    }

    method Complete(registry: ArtifactRegistry, w: Workspace, result: Json) returns (ok: bool)
      requires store.fs.Valid() && Steady(store.fs.image.root) && ClosedWork(store.fs.image.work)
      requires Portable(SnapshotOf(registry.Value(), w), w.dir)
      modifies store.fs
      ensures store.fs.Valid() && |old(store.fs.history)| <= |store.fs.history|
      ensures store.fs.history[..|old(store.fs.history)|] == old(store.fs.history)
      ensures forall k :: |old(store.fs.history)| <= k < |store.fs.history| ==>
                result.Document? && Committing(old(store.fs.image), store.fs.history[k], w.dir,
                                               SnapshotOf(registry.Value(), w), UnitState(Completed, result))
      ensures Committing(old(store.fs.image), store.fs.image, w.dir, SnapshotOf(registry.Value(), w),
                         UnitState(Completed, result))
      ensures ok ==> result.Document?
                     && Tells(store.fs.image.root, w.dir, TreeAt(old(store.fs.image), Work(w.dir)),
                              SnapshotOf(registry.Value(), w), UnitState(Completed, result))
    {
      if result.NotJson? {
        return false;
      }
      ok := Commit(registry, w, UnitState(Completed, result));
    }

    /** `Rollback` for `Started`, `RestoreCompleted` for `Completed`: puts workspace and
        registry slice back to what the checkpoint of that status recorded. */
    method RestoreTo(registry: ArtifactRegistry, status: Status, ghost dir: string, ghost tree: Tree)
      returns (state: Option<UnitState>)
      requires store.fs.Valid() && Steady(store.fs.image.root) && Recorded(store.fs.image.root, dir, tree)
      requires Consistent(registry.Value())
      modifies store.fs, registry
      ensures store.fs.Valid()
              && RestoredOver(old(store.fs.history), store.fs.history, old(store.fs.image), store.fs.image, dir)
      ensures state.Some? ==>
                && state.value == Lookup(store.fs.image.root).state.payload && state.value.status == status
                && Consistent(registry.Value())
                && TreeAt(store.fs.image, Work(dir)) == tree
                && SnapshotOf(registry.Value(), At(dir, 0)) == Lookup(store.fs.image.root).state.registry
                && GivesBack(registry.Value(), dir, Lookup(store.fs.image.root).state.registry)
    {
      ghost var base, h0 := store.fs.image, store.fs.history;
      state := None;
      var loaded := Load();
      QuietRestored(h0, store.fs.history, base, store.fs.image, dir);
      if loaded.Ready? && loaded.state.status == status {
        SameRecorded(base.root, store.fs.image.root, dir, tree);
        var ok := RestoreOver(registry, base, h0, dir, tree);
        if ok {
          SliceGivesBack(registry.Value(), dir);
          state := Some(loaded.state);
        }
      }
    }

    method RestoreOver(registry: ArtifactRegistry, ghost base: Image, ghost h0: seq<Image>, ghost dir: string,
                       ghost tree: Tree)
      returns (ok: bool)
      requires store.fs.Valid() && Recorded(store.fs.image.root, dir, tree) && Consistent(registry.Value())
      requires RestoredOver(h0, store.fs.history, base, store.fs.image, dir)
      modifies store.fs, registry
      ensures store.fs.Valid() && store.fs.image.root == old(store.fs.image).root
      ensures RestoredOver(h0, store.fs.history, base, store.fs.image, dir)
      ensures ok ==>
                && Consistent(registry.Value()) && TreeAt(store.fs.image, Work(dir)) == tree
                && SnapshotOf(registry.Value(), At(dir, 0)) == Lookup(store.fs.image.root).state.registry
    {
      hide RestoredOver, Confined, Recorded;
      ghost var mid, h1 := store.fs.image, store.fs.history;
      ok := RestoreLoaded(registry, dir, tree);
      ghost var now, h2 := store.fs.image, store.fs.history;
      RestoredHistory(h0, h1, h2, base, mid, now, dir);
    }

    method RestoreLoaded(registry: ArtifactRegistry, ghost dir: string, ghost tree: Tree) returns (ok: bool)
      requires store.fs.Valid() && Recorded(store.fs.image.root, dir, tree) && Consistent(registry.Value())
      modifies store.fs, registry
      ensures store.fs.Valid() && store.fs.image.root == old(store.fs.image).root
      ensures Confined(old(store.fs.history), store.fs.history, old(store.fs.image), Work(dir))
      ensures ok ==>
                && Consistent(registry.Value()) && TreeAt(store.fs.image, Work(dir)) == tree
                && SnapshotOf(registry.Value(), At(dir, 0)) == Lookup(store.fs.image.root).state.registry
    {
      ok := store.RestoreWorkspace(registry, dir, tree);
    }
  }

  /** One image during a restore: the same checkpoint, at most this workspace changed. */
  ghost predicate Restored(base: Image, image: Image, dir: string) {
    && Steady(image.root) && Lookup(image.root) == Lookup(base.root)
    && image.work - {dir} == base.work - {dir}
  }

  /** The trees a block's sessions step through, the registry they leave and their result. */
  datatype Activity = Activity(trees: seq<Tree>, registry: Index, result: Json) {
    ghost predicate Possible() {
      && (forall tree :: tree in trees ==> Closed(tree))
      && Consistent(registry) && forall id :: id in registry.entries ==> !Blank(id)
    }
  }

  /** One research block: the resume switch, the work, the completion. */
  class Block {
    const unit: Unit
    const registry: ArtifactRegistry
    const w: Workspace

    constructor (unit: Unit, registry: ArtifactRegistry, w: Workspace)
      ensures this.unit == unit && this.registry == registry && this.w == w
    {
      this.unit, this.registry, this.w := unit, registry, w;
    }

    /** What the model sessions do between begin and completion: whatever `work` says, step
        by step in the workspace and at the end in the registry. */
    method Sessions(work: Activity)
      requires unit.store.fs.Valid() && work.Possible()
      modifies unit.store.fs, registry
      ensures unit.store.fs.Valid() && Confined(old(unit.store.fs.history), unit.store.fs.history,
                                                old(unit.store.fs.image), Work(w.dir))
      ensures OnlyAt(old(unit.store.fs.image), unit.store.fs.image, Work(w.dir))
      ensures Closed(TreeAt(old(unit.store.fs.image), Work(w.dir))) ==>
                Closed(TreeAt(unit.store.fs.image, Work(w.dir)))
      ensures registry.Value() == work.registry
    {
      var fs := unit.store.fs;
      for i := 0 to |work.trees|
        invariant fs.Valid() && Confined(old(fs.history), fs.history, old(fs.image), Work(w.dir))
        invariant OnlyAt(old(fs.image), fs.image, Work(w.dir))
        invariant Closed(TreeAt(old(fs.image), Work(w.dir))) ==> Closed(TreeAt(fs.image, Work(w.dir)))
      {
        ghost var h1, mid := fs.history, fs.image;
        assert work.trees[i] in work.trees;
        fs.Step(WithTree(fs.image, Work(w.dir), work.trees[i]));
        ConfinedTransitive(old(fs.history), h1, fs.history, old(fs.image), mid, Work(w.dir));
      }
      registry.entries, registry.order := work.registry.entries, work.registry.order;
      registry.paths, registry.children := work.registry.paths, work.registry.children;
    }

    /** The resume switch of `newResearchBlock`.  `phase` is what the run directory holds when
        the process starts; with `entered` the block may work, otherwise it has failed or
        answers with a recorded result. */
    method Enter(ghost phase: Phase) returns (entered: bool, result: Option<Json>)
      requires unit.store.fs.Valid() && Startable(unit.store.fs.image, w.dir, phase)
      requires Consistent(registry.Value()) && Portable(SnapshotOf(registry.Value(), w), w.dir)
      modifies unit.store.fs, registry
      ensures unit.store.fs.Valid()
      ensures AllMayLeave(old(unit.store.fs.history), unit.store.fs.history, old(unit.store.fs.image), w.dir, phase,
                          old(SnapshotOf(registry.Value(), w)))
      ensures entered ==> Entered(old(unit.store.fs.image), unit.store.fs.image, w.dir, phase,
                                  old(SnapshotOf(registry.Value(), w)), SnapshotOf(registry.Value(), w))
      ensures result.Some? ==>
                && !entered && InPhase(unit.store.fs.image.root, w.dir, phase)
                && phase == Final(TreeAt(unit.store.fs.image, Work(w.dir)), SnapshotOf(registry.Value(), w),
                                  result.value)
      ensures (phase.InProgress? && entered) || result.Some? ==> GivesBack(registry.Value(), w.dir, phase.slice)
    {
      ghost var base, h0 := unit.store.fs.image, unit.store.fs.history;
      ghost var slice := SnapshotOf(registry.Value(), w);
      entered, result := false, None;
      var loaded := unit.Load();
      QuietMayLeave(h0, unit.store.fs.history, base, w.dir, phase, slice);
      SameLookup(base.root, unit.store.fs.image.root, w.dir, phase);
      if !loaded.Failed? {
        entered, result := Resume(loaded, phase, base, h0, slice);
      }
    }

    /** The switch once the unit state is loaded. */
    method Resume(loaded: UnitLoad, ghost phase: Phase, ghost base: Image, ghost h0: seq<Image>,
                  ghost slice: seq<SavedEntry>)
      returns (entered: bool, result: Option<Json>)
      requires unit.store.fs.Valid() && Startable(unit.store.fs.image, w.dir, phase)
      requires unit.store.fs.image.work == base.work && !loaded.Failed?
      requires loaded == Decode(Lookup(unit.store.fs.image.root))
      requires Consistent(registry.Value()) && Portable(slice, w.dir) && SnapshotOf(registry.Value(), w) == slice
      requires AllMayLeave(h0, unit.store.fs.history, base, w.dir, phase, slice)
      modifies unit.store.fs, registry
      ensures unit.store.fs.Valid() && AllMayLeave(h0, unit.store.fs.history, base, w.dir, phase, slice)
      ensures entered ==> Entered(base, unit.store.fs.image, w.dir, phase, slice, SnapshotOf(registry.Value(), w))
      ensures result.Some? ==>
                && !entered && InPhase(unit.store.fs.image.root, w.dir, phase)
                && phase == Final(TreeAt(unit.store.fs.image, Work(w.dir)), SnapshotOf(registry.Value(), w),
                                  result.value)
      ensures (phase.InProgress? && entered) || result.Some? ==> GivesBack(registry.Value(), w.dir, phase.slice)
    {
      hide AllMayLeave, Entered, Portable, Consistent, SnapshotOf, GivesBack;
      entered, result := false, None;
      if loaded.Absent? {
        entered := Start(phase, base, h0, slice);
      } else {
        var proceed;
        proceed, result := Restore(loaded.state, phase, base, h0, slice);
        if proceed {
          entered := Start(phase, base, h0, slice);
        }
      }
    }

    /** The two restoring branches of the switch. */
    method Restore(state: UnitState, ghost phase: Phase, ghost base: Image, ghost h0: seq<Image>,
                   ghost slice: seq<SavedEntry>)
      returns (proceed: bool, result: Option<Json>)
      requires unit.store.fs.Valid() && InPhase(unit.store.fs.image.root, w.dir, phase)
      requires !phase.Fresh? && !phase.Spoiled? && unit.store.fs.image.work - {w.dir} == base.work - {w.dir}
      requires state == Lookup(unit.store.fs.image.root).state.payload
      requires Consistent(registry.Value()) && AllMayLeave(h0, unit.store.fs.history, base, w.dir, phase, slice)
      modifies unit.store.fs, registry
      ensures unit.store.fs.Valid() && AllMayLeave(h0, unit.store.fs.history, base, w.dir, phase, slice)
      ensures InPhase(unit.store.fs.image.root, w.dir, phase)
      ensures unit.store.fs.image.work - {w.dir} == old(unit.store.fs.image).work - {w.dir}
      ensures proceed ==> phase == InProgress(TreeAt(unit.store.fs.image, Work(w.dir)), SnapshotOf(registry.Value(), w))
      ensures proceed || result.Some? ==> GivesBack(registry.Value(), w.dir, phase.slice)
      ensures result.Some? ==>
                && !proceed
                && phase == Final(TreeAt(unit.store.fs.image, Work(w.dir)), SnapshotOf(registry.Value(), w),
                                  result.value)
    {
      ghost var h1, mid := unit.store.fs.history, unit.store.fs.image;
      var restored := unit.RestoreTo(registry, state.status, w.dir, phase.tree);
      RestoredMayLeave(h0, h1, unit.store.fs.history, base, mid, w.dir, phase, slice);
      proceed := restored.Some? && state.status.Started?;
      result := if restored.Some? && state.status.Completed? then Some(state.result) else None;
    }

    /** `Begin`, once the workspace stands where the block starts from. */
    method Start(ghost phase: Phase, ghost base: Image, ghost h0: seq<Image>, ghost slice: seq<SavedEntry>)
      returns (entered: bool)
      requires unit.store.fs.Valid() && InPhase(unit.store.fs.image.root, w.dir, phase)
      requires unit.store.fs.image.work - {w.dir} == base.work - {w.dir}
      requires ClosedWork(unit.store.fs.image.work - {w.dir}) && Closed(TreeAt(unit.store.fs.image, Work(w.dir)))
      requires Portable(SnapshotOf(registry.Value(), w), w.dir)
      requires AllMayLeave(h0, unit.store.fs.history, base, w.dir, phase, slice)
      requires EntersWith(phase, base, w.dir, slice, TreeAt(unit.store.fs.image, Work(w.dir)),
                          SnapshotOf(registry.Value(), w))
      modifies unit.store.fs
      ensures unit.store.fs.Valid() && AllMayLeave(h0, unit.store.fs.history, base, w.dir, phase, slice)
      ensures entered ==> Entered(base, unit.store.fs.image, w.dir, phase, slice, SnapshotOf(registry.Value(), w))
    {
      ghost var h1, ready := unit.store.fs.history, unit.store.fs.image;
      assert ClosedWork(ready.work) by {
        forall dir | dir in ready.work ensures Closed(ready.work[dir]) {
          assert dir == w.dir || dir in ready.work - {w.dir};
        }
      }
      entered := unit.Begin(registry, w);
      BegunMayLeave(h0, h1, unit.store.fs.history, base, ready, w.dir, phase, slice,
                    TreeAt(ready, Work(w.dir)), SnapshotOf(registry.Value(), w));
      WorkStaysClosed(ready.work, unit.store.fs.image.work, w.dir);
    }

    /** `Apply`: the sessions work, then the result becomes durable. */
    method Apply(work: Activity, ghost phase: Phase, ghost base: Image, ghost h0: seq<Image>,
                 ghost slice: seq<SavedEntry>)
      returns (result: Option<Json>)
      requires unit.store.fs.Valid() && work.Possible()
      requires AllMayLeave(h0, unit.store.fs.history, base, w.dir, phase, slice)
      requires Entered(base, unit.store.fs.image, w.dir, phase, slice, SnapshotOf(registry.Value(), w))
      modifies unit.store.fs, registry
      ensures unit.store.fs.Valid() && AllMayLeave(h0, unit.store.fs.history, base, w.dir, phase, slice)
      ensures result.Some? ==>
                && result.value == work.result && SnapshotOf(registry.Value(), w) == SnapshotOf(work.registry, w)
                && InPhase(unit.store.fs.image.root, w.dir,
                           Ended(TreeAt(unit.store.fs.image, Work(w.dir)), SnapshotOf(work.registry, w), work.result))
    {
      ghost var t, s := TreeAt(unit.store.fs.image, Work(w.dir)), SnapshotOf(registry.Value(), w);
      WorkOn(work, phase, base, h0, slice);
      SnapshotIsPortable(registry.Value(), w);
      result := Finish(work.result, phase, base, h0, slice, t, s);
    }

    method WorkOn(work: Activity, ghost phase: Phase, ghost base: Image, ghost h0: seq<Image>,
                  ghost slice: seq<SavedEntry>)
      requires unit.store.fs.Valid() && work.Possible()
      requires AllMayLeave(h0, unit.store.fs.history, base, w.dir, phase, slice)
      requires Entered(base, unit.store.fs.image, w.dir, phase, slice, SnapshotOf(registry.Value(), w))
      modifies unit.store.fs, registry
      ensures unit.store.fs.Valid() && registry.Value() == work.registry
      ensures Worked(unit.store.fs.history, unit.store.fs.image, base, h0, w.dir, phase, slice,
                     old(TreeAt(unit.store.fs.image, Work(w.dir))), old(SnapshotOf(registry.Value(), w)))
    {
      ghost var h1, begun := unit.store.fs.history, unit.store.fs.image;
      ghost var t, s := TreeAt(begun, Work(w.dir)), SnapshotOf(registry.Value(), w);
      Sessions(work);
      WorkedMayLeave(h0, h1, unit.store.fs.history, base, begun, w.dir, phase, slice, t, s);
      WorkStaysClosed(begun.work, unit.store.fs.image.work, w.dir);
    }

    method Finish(outcome: Json, ghost phase: Phase, ghost base: Image, ghost h0: seq<Image>,
                  ghost slice: seq<SavedEntry>,
                  ghost t: Tree, ghost s: seq<SavedEntry>)
      returns (result: Option<Json>)
      requires unit.store.fs.Valid() && Portable(SnapshotOf(registry.Value(), w), w.dir)
      requires Worked(unit.store.fs.history, unit.store.fs.image, base, h0, w.dir, phase, slice, t, s)
      modifies unit.store.fs
      ensures unit.store.fs.Valid() && AllMayLeave(h0, unit.store.fs.history, base, w.dir, phase, slice)
      ensures result.Some? ==>
                && result.value == outcome
                && InPhase(unit.store.fs.image.root, w.dir,
                           Ended(TreeAt(unit.store.fs.image, Work(w.dir)), SnapshotOf(registry.Value(), w), outcome))
    {
      ghost var h1, worked := unit.store.fs.history, unit.store.fs.image;
      var ok := unit.Complete(registry, w, outcome);
      CompletedMayLeave(h0, h1, unit.store.fs.history, base, worked, w.dir, phase, slice, t, s,
                        SnapshotOf(registry.Value(), w), outcome);
      result := if ok then Some(outcome) else None;
    }

    /** One life of a resuming process, from `newResearchBlock` to the end of `Apply`. */
    method Run(work: Activity, ghost phase: Phase) returns (result: Option<Json>, ran: bool)
      requires unit.store.fs.Valid() && work.Possible()
      requires Startable(unit.store.fs.image, w.dir, phase)
      requires Consistent(registry.Value()) && Portable(SnapshotOf(registry.Value(), w), w.dir)
      modifies unit.store.fs, registry
      ensures unit.store.fs.Valid()
      ensures AllMayLeave(old(unit.store.fs.history), unit.store.fs.history, old(unit.store.fs.image), w.dir, phase,
                          old(SnapshotOf(registry.Value(), w)))
      ensures phase.Final? || phase.Spoiled? ==> !ran
      ensures result.Some? && !ran ==> phase.Final? && GivesBack(registry.Value(), w.dir, phase.slice)
      ensures result.Some? ==>
                && InPhase(unit.store.fs.image.root, w.dir,
                           Ended(TreeAt(unit.store.fs.image, Work(w.dir)), SnapshotOf(registry.Value(), w),
                                 result.value))
                && (if ran then result.value == work.result
                    else phase == Final(TreeAt(unit.store.fs.image, Work(w.dir)),
                                        SnapshotOf(registry.Value(), w), result.value))
    {
      ghost var base, h0 := unit.store.fs.image, unit.store.fs.history;
      ghost var slice := SnapshotOf(registry.Value(), w);
      ran, result := Enter(phase);
      if ran {
        result := Apply(work, phase, base, h0, slice);
      }
    }
  }

  /** One image during a unit commit: the workspace is untouched and the checkpoint is the
      old one or the new one. */
  ghost predicate Committing(base: Image, image: Image, dir: string, slice: seq<SavedEntry>, payload: UnitState) {
    && Steady(image.root) && TreeAt(image, Work(dir)) == TreeAt(base, Work(dir))
    && image.work - {dir} == base.work - {dir}
    && (Lookup(image.root) == Lookup(base.root) || Tells(image.root, dir, TreeAt(base, Work(dir)), slice, payload))
  }
}
