/** Replaying patch events into commits, and applying a chain of them to a branch. */
module Replay {
  import opened Wrappers
  import opened Text
  import opened Commits
  import opened Events

  type Tree = map<string, string>

  datatype CommitObject = CommitObject(parents: seq<Oid>, tree: Tree, author: seq<string>, committer: seq<string>,
                                       message: string, sig: Option<string>)

  /** What git supplies: the id of a commit, the commit that an id stands for, and the tree that a diff
      makes of its base. */
  datatype Git = Git(hash: CommitObject -> Oid, commitOf: Oid -> CommitObject, apply: (Tree, string) -> Option<Tree>) {
    function Id(c: CommitObject): Oid {
      hash(c)
    }

    function CommitOf(id: Oid): CommitObject {
      commitOf(id)
    }

    function Apply(tree: Tree, diff: string): Option<Tree> {
      apply(tree, diff)
    }
  }

  type Objects = map<Oid, CommitObject>

  datatype ReplayError = NoPatch | Panic | NoParentTag | ParentMissing | BadPatch | IdMismatch | NoMain
                       | CannotBranch | NoSuchRef

  /** An id in hex; of any length, since no two commits may share one. */
  predicate IsHexId(s: string) {
    s != "" && IsHex(s)
  }

  /** Ids are collision-free hashes. */
  ghost predicate ContentAddressed(git: Git) {
    && (forall c :: git.CommitOf(git.Id(c)) == c)
    && (forall c :: IsHexId(git.Id(c)))
  }

  ghost predicate ValidObjects(git: Git, objects: Objects) {
    && ContentAddressed(git)
    && (forall id | id in objects :: git.Id(objects[id]) == id)
    && (forall id, p | id in objects && p in objects[id].parents :: p in objects)
  }

  ghost predicate Grows(before: Objects, after: Objects) {
    forall id | id in before :: id in after && after[id] == before[id]
  }

  lemma {:induction false} GrowsItself(a: Objects)
    ensures Grows(a, a)
  {}

  lemma {:induction false} GrowsFurther(a: Objects, b: Objects, c: Objects)
    requires Grows(a, b) && Grows(b, c)
    ensures Grows(a, c)
  {}

  function GraphOf(objects: Objects): Graph {
    map id | id in objects :: objects[id].parents
  }

  // ---------------------------------------------------------------- what a patch says of its commit

  /** `get_commit_id_from_patch` */
  function CommitIdOf(patch: Event): Option<string> {
    var value := TagValue(patch.tags, "commit");
    if value.Some? then value
    else if StartsWith(patch.content, "From ") && |patch.content| > 45 then Some(patch.content[5..45])
    else None
  }

  /** Without a `commit` tag the id is read from the mail's first line: the 40 characters after `From `, if anything
      follows them. */
  lemma {:induction false} CommitIdOfMail(patch: Event, id: string, rest: string)
    requires FirstNamed(patch.tags, "commit").None? && |id| == 40 && patch.content == "From " + id + rest
    ensures CommitIdOf(patch) == if rest == "" then None else Some(id)
  {
    assert patch.content[..5] == "From " && StartsWith(patch.content, "From ");
    assert rest != "" ==> patch.content[5..45] == id;
  }

  /** `extract_sig_from_patch_tags`, the two numbers left in their written form. */
  function SignatureOf(patch: Event, name: string): Option<seq<string>> {
    match FirstNamed(patch.tags, name)
    case Some(tag) => if |tag| == 5 then Some(tag[1..]) else None
    case None => None
  }

  /** The text of the signature tag; empty when there is none, as for an unsigned commit. */
  function SigText(patch: Event): string {
    var sig := TagValue(patch.tags, "commit-pgp-sig");
    if sig.Some? then sig.value else ""
  }

  /** The patch carries everything of the commit but its tree. */
  ghost predicate Describes(git: Git, patch: Event, c: CommitObject) {
    && CommitIdOf(patch) == Some(git.Id(c))
    && (exists parent :: c.parents == [parent] && TagValue(patch.tags, "parent-commit") == Some(parent))
    && SignatureOf(patch, "author") == Some(c.author) && SignatureOf(patch, "committer") == Some(c.committer)
    && TagValue(patch.tags, "description") == Some(c.message)
    && c.sig == (if SigText(patch) == "" then None else Some(SigText(patch)))
  }

  /** ... and its diff makes the commit's tree from the tree of its parent. */
  ghost predicate Produces(git: Git, objects: Objects, patch: Event, c: CommitObject) {
    && Describes(git, patch, c)
    && c.parents[0] in objects
    && git.Apply(objects[c.parents[0]].tree, patch.content) == Some(c.tree)
  }

  /** The commit is what the patch makes on that parent: its diff applied to the parent's tree, and the author,
      committer and message that the patch carries, with the signature it carries or none. */
  ghost predicate MadeFrom(git: Git, objects: Objects, patch: Event, parent: Oid, c: CommitObject) {
    && parent in objects && c.parents == [parent]
    && git.Apply(objects[parent].tree, patch.content) == Some(c.tree)
    && SignatureOf(patch, "author") == Some(c.author) && SignatureOf(patch, "committer") == Some(c.committer)
    && TagValue(patch.tags, "description") == Some(c.message)
    && (c.sig == None || c.sig == Some(SigText(patch)))
  }

  predicate IsHeld(objects: Objects, patch: Event) {
    CommitIdOf(patch).Some? && CommitIdOf(patch).value in objects
  }

  /** The id that a patch comes to on that parent: of the commit it names if that is held, else of one made from it.
      On the parent that the patch names too, this has to be the commit it names; on another it has its signature. */
  ghost predicate BecomesOn(git: Git, objects: Objects, patch: Event, parent: Oid, id: Oid) {
    if IsHeld(objects, patch) then id == CommitIdOf(patch).value
    else exists c :: MadeFrom(git, objects, patch, parent, c) && id == git.Id(c) && IsChosen(patch, parent, c, id)
  }

  ghost predicate IsChosen(patch: Event, parent: Oid, c: CommitObject, id: Oid) {
    var name := CommitIdOf(patch);
    if TagValue(patch.tags, "parent-commit") == Some(parent) && name.Some? then id == name.value else c.sig.Some?
  }

  /** All commits that are new were made from the patch on that parent. */
  ghost predicate AddsFrom(git: Git, before: Objects, after: Objects, patch: Event, parent: Oid) {
    Grows(before, after) && forall id | id in after && id !in before :: MadeFrom(git, before, patch, parent, after[id])
  }

  /** One patch of a run: it comes to `id`, and if that was not held, its commit is made from it. */
  ghost predicate RunStep(git: Git, before: Objects, after: Objects, patch: Event, parent: Oid, id: Oid) {
    && BecomesOn(git, before, patch, parent, id) && id in after && AddsFrom(git, before, after, patch, parent)
    && (!IsHeld(before, patch) ==> MadeFrom(git, before, patch, parent, after[id]))
  }

  /** What the `i`th patch of a run is put on. */
  function Under(base: Oid, tips: seq<Oid>, i: nat): (parent: Oid)
    requires i <= |tips|
    ensures i == 0 ==> parent == base
    ensures i > 0 ==> parent == tips[i - 1]
  {
    if i == 0 then base else tips[i - 1]
  }

  /** The first patches one after the other: `stores` are the objects held before, between and after them. */
  ghost predicate IsRun(git: Git, start: Objects, base: Oid, patches: seq<Event>, stores: seq<Objects>,
      tips: seq<Oid>)
  {
    && |tips| <= |patches| && |stores| == |tips| + 1 && stores[0] == start
    && forall i | 0 <= i < |tips| :: RunStepAt(git, base, patches, stores, tips, i)
  }

  ghost predicate RunStepAt(git: Git, base: Oid, patches: seq<Event>, stores: seq<Objects>, tips: seq<Oid>, i: nat)
    requires i < |tips| <= |patches| && |stores| == |tips| + 1
  {
    RunStep(git, stores[i], stores[i + 1], patches[i], Under(base, tips, i), tips[i])
  }

  /** The next patch comes to nothing. */
  ghost predicate ComesToNothing(git: Git, base: Oid, patches: seq<Event>, stores: seq<Objects>, tips: seq<Oid>) {
    && |tips| < |patches| && |stores| == |tips| + 1
    && forall id ::
         !BecomesOn(git, stores[|tips|], patches[|tips|], Under(base, tips, |tips|), id)
  }

  lemma {:induction false} RunStarts(git: Git, start: Objects, base: Oid, patches: seq<Event>)
    ensures IsRun(git, start, base, patches, [start], [])
  {}

  lemma {:induction false} RunStops(git: Git, base: Oid, patches: seq<Event>, stores: seq<Objects>, tips: seq<Oid>)
    requires |tips| < |patches| && |stores| == |tips| + 1
    requires var parent := Under(base, tips, |tips|);
      !(IsHeld(stores[|tips|], patches[|tips|]) ||
        exists id :: BecomesOn(git, stores[|tips|], patches[|tips|], parent, id))
    ensures ComesToNothing(git, base, patches, stores, tips)
  {}

  lemma {:induction false} RunGoesOn(git: Git, start: Objects, base: Oid, patches: seq<Event>, stores: seq<Objects>,
      tips: seq<Oid>, after: Objects, id: Oid)
    requires IsRun(git, start, base, patches, stores, tips) && |tips| < |patches| && |stores| == |tips| + 1
    requires RunStep(git, stores[|tips|], after, patches[|tips|], Under(base, tips, |tips|), id)
    ensures IsRun(git, start, base, patches, stores + [after], tips + [id])
  {
    hide RunStep, RunStepAt;
    var stores', tips' := stores + [after], tips + [id];
    forall i | 0 <= i < |tips'|
      ensures RunStepAt(git, base, patches, stores', tips', i)
    {
      if i < |tips| {
        assert RunStepAt(git, base, patches, stores, tips, i);
      }
      StepStays(git, base, patches, stores, tips, after, id, i);
    }
  }

  lemma {:induction false} StepStays(git: Git, base: Oid, patches: seq<Event>, stores: seq<Objects>, tips: seq<Oid>,
      after: Objects, id: Oid, i: nat)
    requires i <= |tips| < |patches| && |stores| == |tips| + 1
    requires i < |tips| ==> RunStepAt(git, base, patches, stores, tips, i)
    requires i == |tips| ==> RunStep(git, stores[i], after, patches[i], Under(base, tips, i), id)
    ensures RunStepAt(git, base, patches, stores + [after], tips + [id], i)
  {
    hide RunStep;
  }

  lemma {:induction false} StepTaken(git: Git, before: Objects, after: Objects, patch: Event, parent: Oid, id: Oid)
    requires id in after && AddsFrom(git, before, after, patch, parent)
    requires IsHeld(before, patch) ==> id == CommitIdOf(patch).value
    requires !IsHeld(before, patch) ==>
      BecomesOn(git, before, patch, parent, id) && MadeFrom(git, before, patch, parent, after[id])
    ensures RunStep(git, before, after, patch, parent, id)
  {
    hide MadeFrom, AddsFrom;
  }

  /** Every commit that a run comes to was held before it, or its tree is what the diff of one of its patches makes of
      the tree of its parent, with that patch's author, committer and message. */
  lemma {:induction false} RunMakes(git: Git, start: Objects, base: Oid, patches: seq<Event>, stores: seq<Objects>,
      tips: seq<Oid>, i: nat, id: Oid)
    requires IsRun(git, start, base, patches, stores, tips) && i <= |tips|
    requires |stores| == |tips| + 1 && id in stores[i] && id !in start
    ensures exists j: nat ::
      j < i && MadeFrom(git, stores[j], patches[j], Under(base, tips, j), stores[i][id])
  {
    var j: nat := i - 1;
    assert RunStepAt(git, base, patches, stores, tips, j);
    if id in stores[j] {
      RunMakes(git, start, base, patches, stores, tips, j, id);
    }
  }

  /** Patches, oldest first, that describe commits on top of one another and of a commit held. */
  ghost predicate DescribesSeries(git: Git, objects: Objects, patches: seq<Event>, originals: seq<CommitObject>) {
    && |patches| == |originals| > 0
    && (forall i {:trigger Describes(git, patches[i], originals[i])} | 0 <= i < |patches| ::
      Describes(git, patches[i], originals[i]))
    && originals[0].parents != []
    && originals[0].parents[0] in objects
    && git.Apply(objects[originals[0].parents[0]].tree, patches[0].content) == Some(originals[0].tree)
    && SeriesOf(git, originals)
    && (forall i | 1 <= i < |patches| :: AppliesOnTop(git, patches[i], originals, i))
  }

  ghost predicate SeriesOf(git: Git, originals: seq<CommitObject>) {
    forall i | 1 <= i < |originals| :: SitsOn(git, originals, i)
  }

  ghost predicate SitsOn(git: Git, originals: seq<CommitObject>, i: nat)
    requires 1 <= i < |originals|
  {
    originals[i].parents == [git.Id(originals[i - 1])]
  }

  ghost predicate AppliesOnTop(git: Git, patch: Event, originals: seq<CommitObject>, i: nat)
    requires 1 <= i < |originals|
  {
    git.Apply(originals[i - 1].tree, patch.content) == Some(originals[i].tree)
  }

  lemma {:induction false} SittingOn(git: Git, originals: seq<CommitObject>, i: nat)
    requires SeriesOf(git, originals) && 1 <= i < |originals|
    ensures originals[i].parents == [git.Id(originals[i - 1])]
  {
    var holds := SitsOn(git, originals, i);
    assert holds;
  }

  /** Two commits can be made: with the patch's signature and without. */
  lemma {:induction false} OnlyTwoMade(git: Git, objects: Objects, patch: Event, parent: Oid, signed: CommitObject)
    requires MadeFrom(git, objects, patch, parent, signed) && signed.sig == Some(SigText(patch))
    ensures MadeFrom(git, objects, patch, parent, signed.(sig := None))
    ensures forall c | MadeFrom(git, objects, patch, parent, c) :: c == signed || c == signed.(sig := None)
  {}

  lemma {:induction false} MadeBecomes(git: Git, objects: Objects, patch: Event, parent: Oid, signed: CommitObject)
    requires MadeFrom(git, objects, patch, parent, signed) && signed.sig == Some(SigText(patch))
    requires !IsHeld(objects, patch)
    ensures var unsigned := signed.(sig := None);
      && MadeFrom(git, objects, patch, parent, unsigned) && parent in objects && signed.parents == [parent]
      && forall id :: BecomesOn(git, objects, patch, parent, id) <==>
           if TagValue(patch.tags, "parent-commit") == Some(parent) && CommitIdOf(patch).Some? then
             CommitIdOf(patch) == Some(id) && (id == git.Id(signed) || id == git.Id(unsigned))
           else id == git.Id(signed)
  {
    OnlyTwoMade(git, objects, patch, parent, signed);
    hide MadeFrom;
  }

  lemma {:induction false} AddsMade(git: Git, before: Objects, between: Objects, patch: Event, parent: Oid,
      c: CommitObject)
    requires AddsFrom(git, before, between, patch, parent) || between == before
    requires ValidObjects(git, before) && MadeFrom(git, before, patch, parent, c)
    ensures AddsFrom(git, before, between[git.Id(c) := c], patch, parent)
  {
    hide MadeFrom;
    if git.Id(c) in before {
      assert git.Id(before[git.Id(c)]) == git.Id(c);
      assert git.CommitOf(git.Id(before[git.Id(c)])) == before[git.Id(c)] && git.CommitOf(git.Id(c)) == c;
    }
  }

  lemma {:induction false} HeldBecomes(git: Git, objects: Objects, patch: Event)
    requires IsHeld(objects, patch)
    ensures forall parent, id :: BecomesOn(git, objects, patch, parent, id) <==> id == CommitIdOf(patch).value
    ensures forall parent :: AddsFrom(git, objects, objects, patch, parent)
  {}

  lemma {:induction false} ProducedBecomes(git: Git, objects: Objects, patch: Event, c: CommitObject)
    requires Produces(git, objects, patch, c)
    ensures TagValue(patch.tags, "parent-commit") == Some(c.parents[0])
    ensures forall id :: BecomesOn(git, objects, patch, c.parents[0], id) <==> id == git.Id(c)
  {
    if !IsHeld(objects, patch) {
      assert MadeFrom(git, objects, patch, c.parents[0], c);
      assert IsChosen(patch, c.parents[0], c, git.Id(c));
    }
  }

  lemma {:induction false} DescribedAt(git: Git, objects: Objects, patches: seq<Event>, originals: seq<CommitObject>,
      i: nat)
    requires DescribesSeries(git, objects, patches, originals) && i < |patches|
    ensures Describes(git, patches[i], originals[i])
  {
    var holds := Describes(git, patches[i], originals[i]);
    assert holds;
  }

  lemma {:induction false} NextProduced(git: Git, before: Objects, objects: Objects, patches: seq<Event>,
      originals: seq<CommitObject>, i: nat)
    requires DescribesSeries(git, before, patches, originals) && i < |patches| && Grows(before, objects)
    requires ValidObjects(git, objects)
    requires i > 0 ==> git.Id(originals[i - 1]) in objects
    ensures Produces(git, objects, patches[i], originals[i])
  {
    DescribedAt(git, before, patches, originals, i);
    if i > 0 {
      SittingOn(git, originals, i);
      var id := git.Id(originals[i - 1]);
      assert git.Id(objects[id]) == id;
      assert AppliesOnTop(git, patches[i], originals, i);
    }
  }

  /** The commit that the `i`th of the series sits on. */
  ghost function ParentBefore(git: Git, originals: seq<CommitObject>, i: nat): Oid
    requires i <= |originals| && originals != [] && originals[0].parents != []
  {
    if i == 0 then originals[0].parents[0] else git.Id(originals[i - 1])
  }

  lemma {:induction false} ParentOfNext(git: Git, originals: seq<CommitObject>, i: nat)
    requires i < |originals| && originals[0].parents != []
    ensures ParentBefore(git, originals, i + 1) == git.Id(originals[i])
  {}

  lemma {:induction false} SeriesStarts(git: Git, objects: Objects, patches: seq<Event>, originals: seq<CommitObject>)
    requires DescribesSeries(git, objects, patches, originals)
    ensures |originals| == |patches| > 0 && originals[0].parents != [] && HeldUpTo(git, objects, originals, 0)
    ensures TagValue(patches[0].tags, "parent-commit") == Some(ParentBefore(git, originals, 0))
  {
    DescribedAt(git, objects, patches, originals, 0);
  }

  ghost predicate HeldUpTo(git: Git, objects: Objects, originals: seq<CommitObject>, i: nat) {
    i <= |originals| && forall j | 0 <= j < i :: git.Id(originals[j]) in objects
  }

  lemma {:induction false} ReplayStep(git: Git, before: Objects, objects: Objects, patches: seq<Event>,
      originals: seq<CommitObject>, i: nat)
    requires DescribesSeries(git, before, patches, originals) && i < |patches| && Grows(before, objects)
    requires ValidObjects(git, objects) && HeldUpTo(git, objects, originals, i)
    ensures Produces(git, objects, patches[i], originals[i])
    ensures originals[i].parents == [ParentBefore(git, originals, i)]
  {
    NextProduced(git, before, objects, patches, originals, i);
    DescribedAt(git, before, patches, originals, i);
    if i > 0 {
      SittingOn(git, originals, i);
    }
  }

  lemma {:induction false} ReplayStepDone(git: Git, before: Objects, after: Objects, originals: seq<CommitObject>,
      i: nat)
    requires Grows(before, after) && HeldUpTo(git, before, originals, i) && i < |originals|
    requires git.Id(originals[i]) in after
    ensures HeldUpTo(git, after, originals, i + 1)
  {}

  lemma {:induction false} HeldUnchanged(git: Git, objects: Objects, originals: seq<CommitObject>)
    requires ValidObjects(git, objects) && HeldUpTo(git, objects, originals, |originals|)
    ensures forall i | 0 <= i < |originals| :: objects[git.Id(originals[i])] == originals[i]
  {
    forall i | 0 <= i < |originals|
      ensures objects[git.Id(originals[i])] == originals[i]
    {
      assert git.Id(objects[git.Id(originals[i])]) == git.Id(originals[i]);
    }
  }

  ghost predicate HeldBy(objects: Objects, tip: Option<Oid>, id: Oid) {
    tip.Some? && Reaches(GraphOf(objects), tip.value, id)
  }

  lemma {:induction false} ReachedIsHeld(g: Graph, from: Oid, to: Oid)
    requires Reaches(g, from, to)
    ensures to in g
  {}

  /** The commits of a series that a branch already holds come first. */
  lemma {:induction false} PresentFirst(git: Git, objects: Objects, tip: Option<Oid>, originals: seq<CommitObject>,
      n: nat) returns (present: nat)
    requires ValidObjects(git, objects) && SeriesOf(git, originals) && n <= |originals|
    ensures present <= n && forall i | 0 <= i < n :: HeldBy(objects, tip, git.Id(originals[i])) <==> i < present
  {
    if n == 0 {
      return 0;
    }
    present := PresentFirst(git, objects, tip, originals, n - 1);
    var id := git.Id(originals[n - 1]);
    if HeldBy(objects, tip, id) {
      if n > 1 {
        ReachedIsHeld(GraphOf(objects), tip.value, id);
        assert git.Id(objects[id]) == id;
        SittingOn(git, originals, n - 1);
        ReachesParent(GraphOf(objects), id, git.Id(originals[n - 2]));
        ReachesTransitive(GraphOf(objects), tip.value, id, git.Id(originals[n - 2]));
      }
      present := n;
    }
  }

  /** Once all are held, the newest commit of the series reaches each of them. */
  lemma {:induction false} NewestReaches(git: Git, objects: Objects, originals: seq<CommitObject>, i: nat, n: nat)
    requires ValidObjects(git, objects) && SeriesOf(git, originals) && HeldUpTo(git, objects, originals, n) && i < n
    ensures Reaches(GraphOf(objects), git.Id(originals[n - 1]), git.Id(originals[i]))
    decreases n - i
  {
    if i == n - 1 {
      ReachesItself(GraphOf(objects), git.Id(originals[i]));
    } else {
      NewestReaches(git, objects, originals, i + 1, n);
      var child := git.Id(originals[i + 1]);
      assert git.Id(objects[child]) == child;
      SittingOn(git, originals, i + 1);
      ReachesParent(GraphOf(objects), child, git.Id(originals[i]));
      ReachesTransitive(GraphOf(objects), git.Id(originals[n - 1]), child, git.Id(originals[i]));
    }
  }

  datatype Head = OnBranch(name: string) | Detached(id: Oid)

  /** `origin`'s branch before a local one, and `main` before `master`. */
  function MainName(remote: set<string>, local: set<string>): Option<string> {
    if "origin/main" in remote then Some("origin/main")
    else if "origin/master" in remote then Some("origin/master")
    else if "main" in local then Some("main")
    else if "master" in local then Some("master")
    else None
  }

  lemma {:induction false} MainNameIs(remote: set<string>, local: set<string>)
    ensures MainName(remote, local) == None <==>
      {"origin/main", "origin/master"} !! remote && {"main", "master"} !! local
    ensures "origin/main" in remote ==> MainName(remote, local) == Some("origin/main")
    ensures "origin/master" in remote && "origin/main" !in remote ==> MainName(remote, local) == Some("origin/master")
    ensures "main" in local && {"origin/main", "origin/master"} !! remote ==> MainName(remote, local) == Some("main")
    ensures "master" in local && "main" !in local && {"origin/main", "origin/master"} !! remote ==>
      MainName(remote, local) == Some("master")
  {
    assert "origin/main" in {"origin/main", "origin/master"} && "origin/master" in {"origin/main", "origin/master"};
    assert "main" in {"main", "master"} && "master" in {"main", "master"};
  }

  class Repo {
    const git: Git
    const remoteBranches: map<string, Oid>
    var objects: Objects
    var branches: map<string, Oid>
    var head: Head

    ghost predicate Valid()
      reads this
    {
      && ValidObjects(git, objects)
      && (forall b | b in branches :: branches[b] in objects)
      && (forall b | b in remoteBranches :: remoteBranches[b] in objects)
      && (match head case OnBranch(b) => b in branches case Detached(id) => id in objects)
    }

    constructor (git: Git, remoteBranches: map<string, Oid>, objects: Objects, branches: map<string, Oid>, head: Head)
      requires ValidObjects(git, objects)
      requires forall b | b in branches :: branches[b] in objects
      requires forall b | b in remoteBranches :: remoteBranches[b] in objects
      requires match head case OnBranch(b) => b in branches case Detached(id) => id in objects
      ensures Valid() && this.git == git && this.remoteBranches == remoteBranches
      ensures this.objects == objects && this.branches == branches && this.head == head
    {
      this.git, this.remoteBranches, this.objects, this.branches, this.head := git, remoteBranches, objects, branches,
        head;
    }

    method Store(c: CommitObject) returns (id: Oid)
      requires Valid() && forall p | p in c.parents :: p in objects
      modifies `objects
      ensures Valid() && id == git.Id(c) && objects == old(objects)[id := c] && Grows(old(objects), objects)
    {
      id := git.Id(c);
      objects := objects[id := c];
    }

    /** `create_commit_from_patch` */
    method CreateCommitFromPatch(patch: Event, parentOverride: Option<Oid>) returns (r: Result<Oid, ReplayError>)
      requires Valid()
      modifies `objects
      ensures Valid() && Grows(old(objects), objects)
      ensures r.Ok? ==> r.value in objects
      // a commit that is held is not made again
      ensures IsHeld(old(objects), patch) ==> r == Ok(CommitIdOf(patch).value) && objects == old(objects)
      // every other one is made on the parent asked for, or else on the parent that the patch names
      ensures var parent := if parentOverride.Some? then parentOverride else TagValue(patch.tags, "parent-commit");
        && (r.Ok? <==> (IsHeld(old(objects), patch) ||
             (parent.Some? && exists id :: BecomesOn(git, old(objects), patch, parent.value, id))))
        && (r.Ok? && !IsHeld(old(objects), patch) ==>
              && BecomesOn(git, old(objects), patch, parent.value, r.value)
              && MadeFrom(git, old(objects), patch, parent.value, objects[r.value]))
        && (if parent.Some? then AddsFrom(git, old(objects), objects, patch, parent.value) else objects == old(objects))
        // with the diff applied, whatever the parent, and the author, committer and message of the patch
        && (r.Ok? && !IsHeld(old(objects), patch) ==>
              var made := objects[r.value];
              && made.parents == [parent.value] && parent.value in old(objects)
              && git.Apply(old(objects)[parent.value].tree, patch.content) == Some(made.tree)
              && SignatureOf(patch, "author") == Some(made.author)
              && SignatureOf(patch, "committer") == Some(made.committer)
              && TagValue(patch.tags, "description") == Some(made.message))
      // unless the parent was overridden, success means that the announced commit is held
      ensures (parentOverride.None? || parentOverride == TagValue(patch.tags, "parent-commit")) ==>
        (r.Ok? && CommitIdOf(patch).Some? ==> r.value == CommitIdOf(patch).value)
      // a faithful patch gives the original commit
      ensures forall c | Produces(git, old(objects), patch, c) &&
        (parentOverride.None? || parentOverride.value == c.parents[0]) ::
        r == Ok(git.Id(c))
    {
      forall c, parent | Produces(git, objects, patch, c) && parent == c.parents[0]
        ensures TagValue(patch.tags, "parent-commit") == Some(parent)
        ensures forall id :: BecomesOn(git, objects, patch, parent, id) <==> id == git.Id(c)
      {
        ProducedBecomes(git, objects, patch, c);
      }
      forall parent, id | BecomesOn(git, objects, patch, parent, id)
        ensures TagValue(patch.tags, "parent-commit") == Some(parent) && CommitIdOf(patch).Some? ==>
          id == CommitIdOf(patch).value
      {}
      hide Produces, BecomesOn, AddsFrom, CommitIdOf, TagValue, SignatureOf;
      var commitId := CommitIdOf(patch);
      if commitId.Some? && commitId.value in objects {
        HeldBecomes(git, objects, patch);
        return Ok(commitId.value);
      }
      var tagParent := TagValue(patch.tags, "parent-commit");
      if parentOverride.None? && tagParent.None? {
        return Err(NoParentTag);
      }
      var parent := if parentOverride.Some? then parentOverride.value else tagParent.value;
      r := CommitOnParent(patch, parent, parentOverride.Some? && tagParent != parentOverride);
    }

    /** The patch's commit, which is not held, on that parent. */
    method CommitOnParent(patch: Event, parent: Oid, customParent: bool) returns (r: Result<Oid, ReplayError>)
      requires Valid() && !IsHeld(objects, patch)
      requires customParent <==> TagValue(patch.tags, "parent-commit") != Some(parent)
      modifies `objects
      ensures Valid() && AddsFrom(git, old(objects), objects, patch, parent) && Grows(old(objects), objects)
      ensures r.Ok? <==> exists id :: BecomesOn(git, old(objects), patch, parent, id)
      ensures r.Ok? ==>
        && r.value in objects && BecomesOn(git, old(objects), patch, parent, r.value)
        && MadeFrom(git, old(objects), patch, parent, objects[r.value])
    {
      var commitId := CommitIdOf(patch);
      if parent !in objects {
        return Err(ParentMissing);
      }
      var tree := git.Apply(objects[parent].tree, patch.content);
      var author, committer := SignatureOf(patch, "author"), SignatureOf(patch, "committer");
      var message := TagValue(patch.tags, "description");
      if tree.None? || author.None? || committer.None? || message.None? {
        return Err(BadPatch);
      }
      // an empty signature is written as an empty header
      var signed := CommitObject([parent], tree.value, author.value, committer.value, message.value,
        Some(SigText(patch)));
      ghost var before := objects;
      assert MadeFrom(git, objects, patch, parent, signed);
      MadeBecomes(git, objects, patch, parent, signed);
      ValidHolds();
      hide *;
      var applied := Store(signed);
      AddsMade(git, before, before, patch, parent, signed);
      if !customParent && commitId.Some? {
        if applied != commitId.value {
          // amending writes the commit without signature header
          ghost var between := objects;
          applied := Store(signed.(sig := None));
          AddsMade(git, before, between, patch, parent, signed.(sig := None));
        }
        if applied != commitId.value {
          return Err(IdMismatch);
        }
      }
      assert BecomesOn(git, before, patch, parent, applied);
      return Ok(applied);
    }

    method GetMainOrMasterBranch() returns (r: Option<(string, Oid)>)
      requires Valid()
      ensures r.Some? <==> MainName(remoteBranches.Keys, branches.Keys).Some?
      ensures r.Some? ==>
        && Some(r.value.0) == MainName(remoteBranches.Keys, branches.Keys)
        && r.value.1 in objects && (r.value.0 in branches || r.value.0 in remoteBranches)
        // a local branch of that name comes first
        && r.value.1 == (if r.value.0 in branches then branches[r.value.0] else remoteBranches[r.value.0])
    {
      var name := MainName(remoteBranches.Keys, branches.Keys);
      match name {
        case None => return None;
        case Some(n) => return Some((n, TipOfBranch(n).value));
      }
    }

    /** What the oldest patch is put on: the parent that it names, or else the tip of the main branch. */
    ghost predicate IsBase(oldest: Event, base: Oid)
      reads this
    {
      match TagValue(oldest.tags, "parent-commit")
      case Some(parent) => base == parent
      case None =>
        var main := MainName(remoteBranches.Keys, branches.Keys);
        && main.Some?
        && (if main.value in branches then base == branches[main.value]
            else main.value in remoteBranches && base == remoteBranches[main.value])
    }

    /** `make_commits_for_proposal`: patches come newest first. The oldest is put on its base and each other one on what
        the one before came to, until one comes to nothing. */
    method MakeCommitsForProposal(patches: seq<Event>, ghost originals: seq<CommitObject>)
      returns (r: Result<Oid, ReplayError>, ghost stores: seq<Objects>, ghost tips: seq<Oid>)
      requires Valid()
      modifies `objects
      ensures Valid() && Grows(old(objects), objects)
      ensures patches == [] ==> r == Err(NoPatch)
      ensures r.Ok? ==> r.value in objects
      ensures r.Ok? ==> exists base ::
        && IsBase(patches[|patches| - 1], base) && IsRun(git, old(objects), base, Reversed(patches), stores, tips)
        && |tips| == |patches| && r.value == tips[|tips| - 1] && stores[|tips|] == objects
      ensures r.Err? && patches != [] ==> forall base | IsBase(patches[|patches| - 1], base) ::
        && IsRun(git, old(objects), base, Reversed(patches), stores, tips)
        && ComesToNothing(git, base, Reversed(patches), stores, tips)
      // patches of a series are replayed into the original commits, up to the original tip
      ensures DescribesSeries(git, old(objects), Reversed(patches), originals) ==>
        && r == Ok(git.Id(originals[|originals| - 1]))
        && forall i | 0 <= i < |originals| ::
          git.Id(originals[i]) in objects && objects[git.Id(originals[i])] == originals[i]
    {
      var ancestorFirst := Reversed(patches);
      stores, tips := [], [];
      if ancestorFirst == [] {
        return Err(NoPatch), stores, tips;
      }
      ReversedAt(patches, 0);
      ghost var faithful := DescribesSeries(git, objects, ancestorFirst, originals);
      if faithful {
        SeriesStarts(git, objects, ancestorFirst, originals);
      }
      var tip: Oid;
      var parent := TagValue(ancestorFirst[0].tags, "parent-commit");
      if parent.Some? {
        tip := parent.value;
      } else {
        var main := GetMainOrMasterBranch();
        if main.None? {
          return Err(NoMain), stores, tips;
        }
        tip := main.value.1;
      }
      GrowsItself(objects);
      assert IsBase(ancestorFirst[0], tip) && forall base | IsBase(ancestorFirst[0], base) :: base == tip;
      hide *;
      r, stores, tips := ReplayAll(tip, ancestorFirst, originals, faithful);
      if faithful {
        ValidHolds();
        HeldUnchanged(git, objects, originals);
      }
    }

    /** The loop of `make_commits_for_proposal`: each commit is made on top of the one before. */
    method ReplayAll(base: Oid, patches: seq<Event>, ghost originals: seq<CommitObject>, ghost faithful: bool)
      returns (r: Result<Oid, ReplayError>, ghost stores: seq<Objects>, ghost tips: seq<Oid>)
      requires Valid() && patches != [] && Grows(objects, objects)
      requires faithful ==>
        && DescribesSeries(git, objects, patches, originals)
        && |originals| == |patches| && originals[0].parents != []
        && base == ParentBefore(git, originals, 0) && HeldUpTo(git, objects, originals, 0)
      modifies `objects
      ensures Valid() && Grows(old(objects), objects)
      ensures r.Ok? ==> r.value in objects
      ensures IsRun(git, old(objects), base, patches, stores, tips)
      ensures r.Ok? ==>
        |tips| == |patches| && r.value == tips[|tips| - 1] && |stores| > |tips| && stores[|tips|] == objects
      ensures r.Err? ==> ComesToNothing(git, base, patches, stores, tips)
      ensures faithful ==> r == Ok(git.Id(originals[|originals| - 1])) && HeldUpTo(git, objects, originals, |originals|)
    {
      hide *;
      var tip := base;
      stores, tips := [objects], [];
      RunStarts(git, objects, base, patches);
      for i := 0 to |patches|
        invariant Valid() && Grows(old(objects), objects) && (i > 0 ==> tip in objects)
        invariant IsRun(git, old(objects), base, patches, stores, tips) && |tips| == i && |stores| == i + 1
        invariant stores[i] == objects && tip == Under(base, tips, i)
        invariant faithful ==> tip == ParentBefore(git, originals, i) && HeldUpTo(git, objects, originals, i)
      {
        if faithful {
          ReplayStepHere(old(objects), patches, originals, i);
        }
        ghost var before := objects;
        var made := CreateCommitFromPatch(patches[i], Some(tip));
        GrowsFurther(old(objects), before, objects);
        if made.Err? {
          RunStops(git, base, patches, stores, tips);
          return made, stores, tips;
        }
        StepTaken(git, before, objects, patches[i], tip, made.value);
        RunGoesOn(git, old(objects), base, patches, stores, tips, objects, made.value);
        tip, stores, tips := made.value, stores + [objects], tips + [made.value];
        if faithful {
          ReplayStepDone(git, before, objects, originals, i);
          ParentOfNext(git, originals, i);
        }
      }
      if faithful {
        ParentOfNext(git, originals, |originals| - 1);
      }
      return Ok(tip), stores, tips;
    }

    lemma {:induction false} ReplayStepHere(before: Objects, patches: seq<Event>, originals: seq<CommitObject>, i: nat)
      requires Valid() && DescribesSeries(git, before, patches, originals) && i < |patches| == |originals|
      requires Grows(before, objects) && HeldUpTo(git, objects, originals, i) && originals[0].parents != []
      ensures Produces(git, objects, patches[i], originals[i]) &&
        originals[i].parents == [ParentBefore(git, originals, i)]
    {
      ReplayStep(git, before, objects, patches, originals, i);
    }

    /** Branches other than `branch` stay where they are. */
    twostate predicate OthersUnchanged(branch: string)
      reads this
    {
      branches - {branch} == old(branches) - {branch}
    }

    method Checkout(name: string) returns (r: Result<Oid, ReplayError>)
      requires Valid()
      modifies `head
      ensures Valid()
      ensures name in branches ==> r == Ok(branches[name]) && head == OnBranch(name)
      ensures name !in branches && name in remoteBranches ==>
        r == Ok(remoteBranches[name]) && head == Detached(remoteBranches[name])
      ensures name !in branches && name !in remoteBranches && name in objects ==>
        r == Ok(name) && head == Detached(name)
      ensures r.Err? <==> name !in branches && name !in remoteBranches && name !in objects
      ensures r.Err? ==> head == old(head)
    {
      if name in branches {
        head := OnBranch(name);
        return Ok(branches[name]);
      } else if name in remoteBranches {
        head := Detached(remoteBranches[name]);
        return Ok(remoteBranches[name]);
      } else if name in objects {
        head := Detached(name);
        return Ok(name);
      }
      return Err(NoSuchRef);
    }

    /** What `get_checked_out_branch_name` answers. */
    function HeadName(): string
      reads this`head
    {
      match head
      case OnBranch(name) => name
      case Detached(_) => "HEAD"
    }

    /** The checked-out branch can be left for the main branch. */
    predicate CanLeave(branch: string)
      reads this
    {
      var main := MainName(remoteBranches.Keys, branches.Keys + {branch});
      main.Some? && main.value != branch
    }

    method CreateBranchAtCommit(branch: string, commit: Oid) returns (r: Result<(), ReplayError>)
      requires Valid() && branch != "HEAD"
      modifies `head, `branches
      ensures Valid() && OthersUnchanged(branch)
      ensures r.Ok? <==> commit in objects && (old(HeadName()) == branch ==> old(CanLeave(branch)))
      ensures r.Ok? ==> branch in branches && branches[branch] == commit
      ensures r.Ok? ==> head == if old(HeadName()) == branch then OnBranch(branch) else old(head)
      ensures r.Err? ==> branches == old(branches)
    {
      var checkedOut := HeadName() == branch;
      if checkedOut {
        assert branches.Keys + {branch} == branches.Keys;
        var main := GetMainOrMasterBranch();
        if main.None? {
          return Err(NoMain);
        }
        var left := Checkout(main.value.0);
        if left.Err? {
          return Err(NoMain);
        }
      }
      if commit !in objects {
        return Err(ParentMissing);
      }
      // git refuses to move the branch that is checked out
      if head == OnBranch(branch) {
        return Err(CannotBranch);
      }
      branches := branches[branch := commit];
      if checkedOut {
        var back := Checkout(branch);
      }
      return Ok(());
    }

    function TipOfBranch(branch: string): Option<Oid>
      reads this
    {
      if branch in branches then Some(branches[branch])
      else if branch in remoteBranches then Some(remoteBranches[branch])
      else None
    }

    /** The commit is the branch's tip or one of its ancestors. */
    ghost predicate InBranch(branch: string, id: Oid)
      reads this
    {
      HeldBy(objects, TipOfBranch(branch), id)
    }

    /** Whether the source's conversions of the patch's commit id panic. */
    predicate Panics(branch: string, patch: Event)
      reads this
    {
      CommitIdOf(patch).None? || (TipOfBranch(branch).Some? && CommitIdOf(patch) != TipOfBranch(branch) &&
        !HasHexId(patch))
    }

    method IsInBranch(branch: string, id: Oid) returns (b: bool)
      requires Valid()
      ensures b <==> InBranch(branch, id)
    {
      var tip := TipOfBranch(branch);
      if tip.None? {
        return false;
      }
      ReachesItself(GraphOf(objects), tip.value);
      var descends := GraphDescendantOf(GraphOf(objects), tip.value, id);
      return tip.value == id || descends;
    }

    /** The filter of `apply_patch_chain`: the patches whose commits the branch does not hold. */
    method MissingPatches(branch: string, patches: seq<Event>)
      returns (r: Result<seq<Event>, ReplayError>, ghost keep: seq<bool>)
      requires Valid()
      ensures r.Err? <==> exists i :: 0 <= i < |patches| && Panics(branch, patches[i])
      ensures r.Ok? ==> |keep| == |patches| && r.value == Kept(patches, keep)
      ensures r.Ok? ==> SortedOut(objects, TipOfBranch(branch), patches, keep)
    {
      hide *;
      var missing: seq<Event> := [];
      keep := [];
      NothingSortedOut(objects, TipOfBranch(branch));
      for n := 0 to |patches|
        invariant |keep| == n
        invariant missing == Kept(patches[..n], keep)
        invariant SortedOut(objects, TipOfBranch(branch), patches[..n], keep)
        invariant forall i | 0 <= i < n :: !Panics(branch, patches[i])
      {
        if Panics(branch, patches[n]) {
          return Err(Panic), keep;
        }
        HasCommitId(branch, patches[n]);
        var present := IsInBranch(branch, CommitIdOf(patches[n]).value);
        MarkedMissing(branch, patches[n], !present);
        KeptSnoc(patches[..n], keep, patches[n], !present);
        SortedOutSnoc(objects, TipOfBranch(branch), patches[..n], keep, patches[n], !present);
        assert patches[..n + 1] == patches[..n] + [patches[n]];
        keep := keep + [!present];
        if !present {
          missing := missing + [patches[n]];
        } else {
          assert missing + [] == missing;
        }
      }
      assert patches[..|patches|] == patches;
      return Ok(missing), keep;
    }

    lemma {:induction false} HasCommitId(branch: string, patch: Event)
      requires !Panics(branch, patch)
      ensures CommitIdOf(patch).Some?
    {}

    lemma {:induction false} MarkedMissing(branch: string, patch: Event, missing: bool)
      requires CommitIdOf(patch).Some? && (missing <==> !InBranch(branch, CommitIdOf(patch).value))
      ensures IsMissing(objects, TipOfBranch(branch), patch, missing)
    {}

    /** One patch of `apply_patch_chain`: its commit is made if need be and becomes the branch's tip. */
    method Advance(branch: string, patch: Event, ghost original: CommitObject) returns (r: Result<(), ReplayError>)
      requires Valid() && branch != "HEAD"
      modifies `objects, `branches, `head
      ensures Valid() && Grows(old(objects), objects) && branches - {branch} == old(branches) - {branch}
      ensures CanLeave(branch) == old(CanLeave(branch))
      ensures r.Ok? ==>
        && head == OnBranch(branch) && branch in branches && CommitIdOf(patch).Some?
        && branches[branch] == CommitIdOf(patch).value && branches[branch] in objects
      ensures Produces(git, old(objects), patch, original) && old(head) == OnBranch(branch) ==>
        (r.Ok? <==> old(CanLeave(branch)))
    {
      var id := CommitIdOf(patch);
      if id.None? {
        return Err(NoPatch);
      }
      if id.value !in objects {
        // only create new commits - otherwise make them the tip
        var _ :- CreateCommitFromPatch(patch, None);
      }
      var _ :- MoveBranch(branch, id.value);
      return Ok(());
    }

    /** Creating the branch at a commit and checking it out. */
    method MoveBranch(branch: string, commit: Oid) returns (r: Result<(), ReplayError>)
      requires Valid() && branch != "HEAD"
      modifies `branches, `head
      ensures Valid() && OthersUnchanged(branch) && CanLeave(branch) == old(CanLeave(branch))
      ensures r.Ok? <==> commit in objects && (old(HeadName()) == branch ==> old(CanLeave(branch)))
      ensures r.Ok? ==> head == OnBranch(branch) && branches[branch] == commit
    {
      var created := CreateBranchAtCommit(branch, commit);
      KeysApart(branches, old(branches), branch);
      if created.Ok? {
        var _ := Checkout(branch);
      }
      return created;
    }

    /** The second half of `apply_patch_chain`: the branch is set to the parent of the oldest missing
        patch, then moved to one commit after the other. */
    method ApplyMissing(branch: string, missing: seq<Event>, ghost before: Objects, ghost patches: seq<Event>,
        ghost originals: seq<CommitObject>)
      returns (r: Result<(), ReplayError>)
      requires Valid() && branch != "HEAD" && missing != []
      modifies `objects, `branches, `head
      ensures Valid() && Grows(old(objects), objects) && OthersUnchanged(branch)
      ensures EndOfSeries(git, before, old(objects), patches, originals, missing) ==>
        && (r.Ok? <==> old(CanLeave(branch)))
        && (r.Ok? ==>
              && head == OnBranch(branch) && branches[branch] == git.Id(originals[|originals| - 1])
              && HeldUpTo(git, objects, originals, |originals|))
    {
      if EndOfSeries(git, before, objects, patches, originals, missing) {
        EndStartsAt(git, before, objects, patches, originals, missing);
      }
      var parent := TagValue(missing[0].tags, "parent-commit");
      if parent.None? {
        return Err(NoParentTag);
      }
      if parent.value !in objects {
        return Err(ParentMissing);
      }
      var _ :- MoveBranch(branch, parent.value);
      r := AdvanceAll(branch, missing, before, patches, originals);
    }

    method AdvanceAll(branch: string, missing: seq<Event>, ghost before: Objects, ghost patches: seq<Event>,
        ghost originals: seq<CommitObject>)
      returns (r: Result<(), ReplayError>)
      requires Valid() && branch != "HEAD" && missing != [] && head == OnBranch(branch)
      modifies `objects, `branches, `head
      ensures Valid() && Grows(old(objects), objects) && branches - {branch} == old(branches) - {branch}
      ensures EndOfSeries(git, before, old(objects), patches, originals, missing) ==>
        && (r.Ok? <==> old(CanLeave(branch)))
        && (r.Ok? ==>
              && head == OnBranch(branch) && branches[branch] == git.Id(originals[|originals| - 1])
              && HeldUpTo(git, objects, originals, |originals|))
    {
      ghost var faithful := EndOfSeries(git, before, objects, patches, originals, missing);
      if faithful {
        EndBounds(git, before, objects, patches, originals, missing);
      }
      r := AdvanceEach(branch, missing, before, patches, originals, faithful);
    }

    method AdvanceEach(branch: string, missing: seq<Event>, ghost before: Objects, ghost patches: seq<Event>,
        ghost originals: seq<CommitObject>, ghost faithful: bool)
      returns (r: Result<(), ReplayError>)
      requires Valid() && branch != "HEAD" && missing != [] && head == OnBranch(branch) && branch in branches &&
        Grows(objects, objects)
      requires faithful ==>
        && EndOfSeries(git, before, objects, patches, originals, missing)
        && |missing| <= |originals| && HeldUpTo(git, objects, originals, |originals| - |missing|)
      modifies `objects, `branches, `head
      ensures Valid() && Grows(old(objects), objects) && branches - {branch} == old(branches) - {branch}
      ensures faithful ==>
        && (r.Ok? <==> old(CanLeave(branch)))
        && (r.Ok? ==>
              && head == OnBranch(branch) && branch in branches &&
                branches[branch] == git.Id(originals[|originals| - 1])
              && HeldUpTo(git, objects, originals, |originals|))
    {
      hide *;
      ghost var present := if faithful then |originals| - |missing| else 0;
      for k := 0 to |missing|
        invariant Valid() && Grows(old(objects), objects) && branches - {branch} == old(branches) - {branch}
        invariant CanLeave(branch) == old(CanLeave(branch)) && head == OnBranch(branch) && branch in branches
        invariant faithful ==> HeldUpTo(git, objects, originals, present + k)
        invariant faithful && k > 0 ==> CanLeave(branch) && branches[branch] == git.Id(originals[present + k - 1])
      {
        ghost var held, original := objects, git.CommitOf("");
        if faithful {
          EndStepHere(before, old(objects), patches, originals, missing, k);
          original := originals[present + k];
        }
        var advanced := Advance(branch, missing[k], original);
        GrowsFurther(old(objects), held, objects);
        if advanced.Err? {
          return advanced;
        }
        if faithful {
          ReplayStepDone(git, held, objects, originals, present + k);
        }
      }
      return Ok(());
    }

    lemma {:induction false} EndStepHere(before: Objects, start: Objects, patches: seq<Event>,
        originals: seq<CommitObject>, missing: seq<Event>, k: nat)
      requires Valid() && EndOfSeries(git, before, start, patches, originals, missing) && k < |missing|
      requires Grows(start, objects) && HeldUpTo(git, objects, originals, |originals| - |missing| + k)
      ensures |originals| == |patches|
      ensures Produces(git, objects, missing[k], originals[|originals| - |missing| + k])
      ensures CommitIdOf(missing[k]) == Some(git.Id(originals[|originals| - |missing| + k]))
    {
      EndStep(git, before, start, objects, patches, originals, missing, k);
    }

    lemma {:induction false} ValidHolds()
      requires Valid()
      ensures ValidObjects(git, objects) && ContentAddressed(git)
    {}

    lemma {:induction false} NoPanic(branch: string, chain: seq<Event>)
      requires forall i | 0 <= i < |chain| :: HasHexId(chain[i])
      ensures !exists i :: 0 <= i < |chain| && Panics(branch, chain[i])
    {
      forall i | 0 <= i < |chain|
        ensures !Panics(branch, chain[i])
      {
        assert HasHexId(chain[i]);
      }
    }

    lemma {:induction false} TipOf(branch: string)
      ensures TipOfBranch(branch) ==
        if branch in branches then Some(branches[branch])
        else if branch in remoteBranches then Some(remoteBranches[branch]) else None
    {}

    /** `apply_patch_chain`: `chain` comes newest first, `originals` oldest first. */
    method ApplyPatchChain(branch: string, chain: seq<Event>, ghost originals: seq<CommitObject>)
      returns (r: Result<seq<Event>, ReplayError>, ghost present: nat)
      requires Valid() && branch != "HEAD"
      modifies `objects, `branches, `head
      ensures Valid() && Grows(old(objects), objects) && branches - {branch} == old(branches) - {branch}
      ensures DescribesSeries(git, old(objects), Reversed(chain), originals) ==>
        // what the branch holds already are the oldest patches
        && PresentIn(git, old(objects), old(TipOfBranch(branch)), originals, present)
        // nothing is missing: nothing but HEAD changes
        && (present == |chain| ==> r == Ok([]) && branches == old(branches) && objects == old(objects))
        // something is missing: it is applied, unless the branch cannot be left while it is moved
        && (present < |chain| ==> (r.Ok? <==> old(CanLeave(branch))))
        && (present < |chain| && r.Ok? ==>
              && r.value == Reversed(chain)[present..]
              && head == OnBranch(branch) && branch in branches &&
                branches[branch] == git.Id(originals[|originals| - 1]))
        && (r.Ok? ==>
              && (branch in branches ==>
                    head == OnBranch(branch) && PresentIn(git, objects, Some(branches[branch]), originals, |originals|))
              && PresentIn(git, objects, TipOfBranch(branch), originals, |originals|))
    {
      hide *;
      ghost var faithful := DescribesSeries(git, objects, Reversed(chain), originals);
      present := 0;
      ValidHolds();
      GrowsItself(objects);
      TipOf(branch);
      var missing, keep := MissingPatches(branch, chain);
      if faithful {
        SeriesShape(git, objects, chain, originals);
        present := PresentFirst(git, objects, TipOfBranch(branch), originals, |originals|);
        IsPresentIn(git, objects, TipOfBranch(branch), originals, present);
        HexIds(git, objects, chain, originals);
        NoPanic(branch, chain);
      }
      if missing.Err? {
        return Err(missing.error), present;
      }
      var toApply := missing.value;
      if faithful {
        MissingOfSeries(git, objects, TipOfBranch(branch), chain, originals, present, keep);
        PresentHasTip(git, objects, TipOfBranch(branch), originals, present);
      }
      if toApply == [] {
        var out := Checkout(branch);
        TipOf(branch);
        if out.Err? {
          return Err(out.error), present;
        }
        return Ok([]), present;
      }
      ghost var before := objects;
      if faithful {
        ReversedPrefix(chain, present);
        MissingIsEnd(git, objects, TipOfBranch(branch), Reversed(chain), originals, present);
      }
      var applied := ApplyMissing(branch, Reversed(toApply), before, Reversed(chain), originals);
      TipOf(branch);
      if applied.Err? {
        return Err(applied.error), present;
      }
      if faithful {
        ValidHolds();
        AllPresent(git, objects, originals);
      }
      return Ok(Reversed(toApply)), present;
    }
  }

  lemma {:induction false} PresentHasTip(git: Git, objects: Objects, tip: Option<Oid>, originals: seq<CommitObject>,
      present: nat)
    requires PresentIn(git, objects, tip, originals, present)
    ensures present > 0 ==> tip.Some?
  {
    assert present > 0 ==> HeldBy(objects, tip, git.Id(originals[0]));
  }

  lemma {:induction false} SeriesShape(git: Git, objects: Objects, chain: seq<Event>, originals: seq<CommitObject>)
    requires DescribesSeries(git, objects, Reversed(chain), originals)
    ensures SeriesOf(git, originals) && |originals| == |chain| > 0
  {}

  lemma {:induction false} IsPresentIn(git: Git, objects: Objects, tip: Option<Oid>, originals: seq<CommitObject>,
      present: nat)
    requires present <= |originals|
    requires forall i | 0 <= i < |originals| :: HeldBy(objects, tip, git.Id(originals[i])) <==> i < present
    ensures PresentIn(git, objects, tip, originals, present)
  {}

  lemma {:induction false} DescribedHasHexId(git: Git, patch: Event, c: CommitObject)
    requires Describes(git, patch, c) && ContentAddressed(git)
    ensures HasHexId(patch)
  {}

  lemma {:induction false} SeriesHasHexIds(git: Git, objects: Objects, patches: seq<Event>,
      originals: seq<CommitObject>, k: nat)
    requires DescribesSeries(git, objects, patches, originals) && ContentAddressed(git) && k < |patches|
    ensures HasHexId(patches[k])
  {
    DescribedAt(git, objects, patches, originals, k);
    DescribedHasHexId(git, patches[k], originals[k]);
  }

  lemma {:induction false} ChainHasHexId(git: Git, objects: Objects, chain: seq<Event>, originals: seq<CommitObject>,
      i: nat)
    requires DescribesSeries(git, objects, Reversed(chain), originals) && ContentAddressed(git) && i < |chain|
    ensures HasHexId(chain[i])
  {
    ReversedAt(chain, |chain| - 1 - i);
    SeriesHasHexIds(git, objects, Reversed(chain), originals, |chain| - 1 - i);
  }

  lemma {:induction false} HexIds(git: Git, objects: Objects, chain: seq<Event>, originals: seq<CommitObject>)
    requires DescribesSeries(git, objects, Reversed(chain), originals) && ContentAddressed(git)
    ensures forall i | 0 <= i < |chain| :: HasHexId(chain[i])
  {
    forall i | 0 <= i < |chain|
      ensures HasHexId(chain[i])
    {
      ChainHasHexId(git, objects, chain, originals, i);
    }
  }

  /** The branch tip reaches exactly the first `present` commits of the series. */
  ghost predicate PresentIn(git: Git, objects: Objects, tip: Option<Oid>, originals: seq<CommitObject>, present: nat) {
    present <= |originals| &&
    forall i | 0 <= i < |originals| :: HeldBy(objects, tip, git.Id(originals[i])) <==> i < present
  }

  /** `missing` are the last patches of a faithful series whose earlier commits are held. */
  ghost predicate EndOfSeries(git: Git, before: Objects, objects: Objects, patches: seq<Event>,
      originals: seq<CommitObject>, missing: seq<Event>)
  {
    && DescribesSeries(git, before, patches, originals) && Grows(before, objects)
    && 0 < |missing| <= |patches| && missing == patches[|patches| - |missing|..]
    && HeldUpTo(git, objects, originals, |patches| - |missing|)
  }

  lemma {:induction false} EndBounds(git: Git, before: Objects, objects: Objects, patches: seq<Event>,
      originals: seq<CommitObject>, missing: seq<Event>)
    requires EndOfSeries(git, before, objects, patches, originals, missing)
    ensures |missing| <= |originals| && HeldUpTo(git, objects, originals, |originals| - |missing|)
  {}

  lemma {:induction false} EndStartsAt(git: Git, before: Objects, objects: Objects, patches: seq<Event>,
      originals: seq<CommitObject>, missing: seq<Event>)
    requires EndOfSeries(git, before, objects, patches, originals, missing)
    ensures var parent := TagValue(missing[0].tags, "parent-commit"); parent.Some? && parent.value in objects
  {
    var present := |patches| - |missing|;
    assert missing[0] == patches[present];
    DescribedAt(git, before, patches, originals, present);
    if present > 0 {
      SittingOn(git, originals, present);
    } else {
      assert originals[0].parents[0] in before;
    }
  }

  lemma {:induction false} EndStep(git: Git, before: Objects, start: Objects, objects: Objects, patches: seq<Event>,
      originals: seq<CommitObject>, missing: seq<Event>, k: nat)
    requires EndOfSeries(git, before, start, patches, originals, missing) && k < |missing|
    requires ValidObjects(git, objects) && Grows(start, objects) &&
      HeldUpTo(git, objects, originals, |patches| - |missing| + k)
    ensures |originals| == |patches|
    ensures var i := |patches| - |missing| + k;
      && Produces(git, objects, missing[k], originals[i])
      && CommitIdOf(missing[k]) == Some(git.Id(originals[i]))
  {
    hide DescribesSeries, ValidObjects, HeldUpTo;
    SeriesStarts(git, before, patches, originals);
    ReplayStep(git, before, objects, patches, originals, |patches| - |missing| + k);
  }

  lemma {:induction false} ReversedPrefix<T>(xs: seq<T>, m: nat)
    requires m <= |xs|
    ensures Reversed(xs[..|xs| - m]) == Reversed(xs)[m..]
  {
    if m < |xs| {
      ReversedPrefix(xs[1..], m);
      var front := xs[..|xs| - m];
      assert front[1..] == xs[1..][..|xs| - 1 - m] && front[0] == xs[0];
      assert Reversed(xs) == Reversed(xs[1..]) + [xs[0]] && Reversed(front) == Reversed(front[1..]) + [xs[0]];
      assert (Reversed(xs[1..]) + [xs[0]])[m..] == Reversed(xs[1..])[m..] + [xs[0]];
    }
  }

  lemma {:induction false} MissingIsEnd(git: Git, objects: Objects, tip: Option<Oid>, patches: seq<Event>,
      originals: seq<CommitObject>, present: nat)
    requires DescribesSeries(git, objects, patches, originals)
    requires PresentIn(git, objects, tip, originals, present) && present < |patches|
    ensures EndOfSeries(git, objects, objects, patches, originals, patches[present..])
  {
    PresentIsHeld(git, objects, tip, originals, present);
  }

  lemma {:induction false} PresentIsHeld(git: Git, objects: Objects, tip: Option<Oid>, originals: seq<CommitObject>,
      present: nat)
    requires PresentIn(git, objects, tip, originals, present)
    ensures HeldUpTo(git, objects, originals, present)
  {
    forall i | 0 <= i < present
      ensures git.Id(originals[i]) in objects
    {
      assert HeldBy(objects, tip, git.Id(originals[i]));
      ReachedIsHeld(GraphOf(objects), tip.value, git.Id(originals[i]));
    }
  }

  /** A second application finds nothing to do: the series still describes the commits held, and the number found
      present by any later call is all of them. */
  lemma {:induction false} SecondApplicationEmpty(git: Git, before: Objects, after: Objects, tip: Option<Oid>,
      patches: seq<Event>, originals: seq<CommitObject>, present: nat)
    requires DescribesSeries(git, before, patches, originals) && Grows(before, after)
    requires PresentIn(git, after, tip, originals, |originals|) && PresentIn(git, after, tip, originals, present)
    ensures DescribesSeries(git, after, patches, originals) && present == |patches|
  {
    var newest := |originals| - 1;
    assert HeldBy(after, tip, git.Id(originals[newest]));
  }

  lemma {:induction false} AllPresent(git: Git, objects: Objects, originals: seq<CommitObject>)
    requires ValidObjects(git, objects) && SeriesOf(git, originals) && HeldUpTo(git, objects, originals, |originals|) &&
      originals != []
    ensures PresentIn(git, objects, Some(git.Id(originals[|originals| - 1])), originals, |originals|)
  {
    forall i | 0 <= i < |originals|
      ensures HeldBy(objects, Some(git.Id(originals[|originals| - 1])), git.Id(originals[i]))
    {
      NewestReaches(git, objects, originals, i, |originals|);
    }
  }

  lemma {:induction false} KeysApart(a: map<string, Oid>, b: map<string, Oid>, branch: string)
    requires a - {branch} == b - {branch}
    ensures a.Keys + {branch} == b.Keys + {branch}
  {
    forall x | x in a && x != branch
      ensures x in b
    {
      assert x in a - {branch};
    }
    forall x | x in b && x != branch
      ensures x in a
    {
      assert x in b - {branch};
    }
  }

  lemma {:induction false} KeptSnoc<T>(xs: seq<T>, keep: seq<bool>, x: T, k: bool)
    requires |keep| == |xs|
    ensures Kept(xs + [x], keep + [k]) == Kept(xs, keep) + (if k then [x] else [])
  {
    assert (xs + [x])[..|xs|] == xs && (keep + [k])[..|xs|] == keep;
  }

  /** The id is written in hex, as the source's conversions demand. */
  predicate HasHexId(patch: Event) {
    CommitIdOf(patch).Some? && IsHexId(CommitIdOf(patch).value)
  }

  function Kept<T>(xs: seq<T>, keep: seq<bool>): seq<T>
    requires |keep| == |xs|
  {
    if xs == [] then []
    else Kept(xs[..|xs| - 1], keep[..|xs| - 1]) + (if keep[|xs| - 1] then [xs[|xs| - 1]] else [])
  }

  /** In a series the missing patches are the newest ones, in the order given. */
  lemma {:induction false} MissingOfSeries(git: Git, objects: Objects, tip: Option<Oid>, chain: seq<Event>,
      originals: seq<CommitObject>, present: nat, keep: seq<bool>)
    requires DescribesSeries(git, objects, Reversed(chain), originals) && ContentAddressed(git)
    requires PresentIn(git, objects, tip, originals, present)
    requires SortedOut(objects, tip, chain, keep)
    ensures Kept(chain, keep) == chain[..|chain| - present]
  {
    forall i | 0 <= i < |chain|
      ensures keep[i] <==> i < |chain| - present
    {
      MissingAt(git, objects, tip, chain, originals, present, keep, i);
    }
    KeptPrefix(chain, keep, |chain| - present);
  }

  lemma {:induction false} MissingAt(git: Git, objects: Objects, tip: Option<Oid>, chain: seq<Event>,
      originals: seq<CommitObject>, present: nat, keep: seq<bool>, i: nat)
    requires DescribesSeries(git, objects, Reversed(chain), originals)
    requires PresentIn(git, objects, tip, originals, present)
    requires SortedOut(objects, tip, chain, keep) && i < |chain|
    ensures keep[i] <==> i < |chain| - present
  {
    ReversedAt(chain, |chain| - 1 - i);
    DescribedAt(git, objects, Reversed(chain), originals, |chain| - 1 - i);
    var holds := IsMissing(objects, tip, chain[i], keep[i]);
    assert holds;
  }

  /** Each patch is marked missing exactly when the tip does not reach its commit. */
  ghost predicate SortedOut(objects: Objects, tip: Option<Oid>, patches: seq<Event>, keep: seq<bool>) {
    |keep| == |patches| && forall i {:trigger IsMissing(objects, tip, patches[i], keep[i])} | 0 <= i < |patches| ::
      IsMissing(objects, tip, patches[i], keep[i])
  }

  ghost predicate IsMissing(objects: Objects, tip: Option<Oid>, patch: Event, missing: bool) {
    CommitIdOf(patch).Some? && (missing <==> !HeldBy(objects, tip, CommitIdOf(patch).value))
  }

  lemma {:induction false} NothingSortedOut(objects: Objects, tip: Option<Oid>)
    ensures SortedOut(objects, tip, [], []) && Kept<Event>([], []) == []
  {}

  lemma {:induction false} SortedOutSnoc(objects: Objects, tip: Option<Oid>, patches: seq<Event>, keep: seq<bool>,
      patch: Event, missing: bool)
    requires SortedOut(objects, tip, patches, keep) && IsMissing(objects, tip, patch, missing)
    ensures SortedOut(objects, tip, patches + [patch], keep + [missing])
  {
    forall i | 0 <= i <= |patches|
      ensures IsMissing(objects, tip, (patches + [patch])[i], (keep + [missing])[i])
    {
      if i < |patches| {
        var holds := IsMissing(objects, tip, patches[i], keep[i]);
        assert holds;
      }
    }
  }

  /** Filtering by a predicate that fails exactly from `m` on keeps the first `m`. */
  lemma {:induction false} KeptPrefix<T>(xs: seq<T>, keep: seq<bool>, m: nat)
    requires |keep| == |xs| && m <= |xs| && forall i | 0 <= i < |xs| :: keep[i] <==> i < m
    ensures Kept(xs, keep) == xs[..m]
  {
    if xs != [] {
      var n := |xs| - 1;
      KeptPrefix(xs[..n], keep[..n], if m <= n then m else n);
      if m > n {
        assert xs[..m] == xs[..n][..n] + [xs[n]];
      } else {
        assert xs[..n][..m] == xs[..m];
      }
    }
  }
}
