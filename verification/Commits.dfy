/** The commit graph, and the walk that tells how far two commits are ahead of and behind each other. */
module Commits {
  import opened Wrappers

  type Oid = string

  /** Every commit held locally, with its parents in order. */
  type Graph = map<Oid, seq<Oid>>

  ghost predicate NoDup<T>(s: seq<T>) {
    forall i, j | 0 <= i < j < |s| :: s[i] != s[j]
  }

  // ---------------------------------------------------------------- reachability

  ghost predicate IsPath(g: Graph, p: seq<Oid>) {
    && p != []
    && (forall i | 0 <= i < |p| :: p[i] in g)
    && (forall i | 0 <= i < |p| - 1 :: p[i + 1] in g[p[i]])
  }

  ghost predicate PathBetween(g: Graph, p: seq<Oid>, from: Oid, to: Oid) {
    IsPath(g, p) && p[0] == from && p[|p| - 1] == to
  }

  /** `to` is `from` or one of its ancestors. */
  ghost predicate Reaches(g: Graph, from: Oid, to: Oid) {
    exists p :: PathBetween(g, p, from, to)
  }

  lemma {:induction false} ReachesItself(g: Graph, c: Oid)
    requires c in g
    ensures Reaches(g, c, c)
  {
    assert PathBetween(g, [c], c, c);
  }

  lemma {:induction false} ReachesParent(g: Graph, c: Oid, parent: Oid)
    requires c in g && parent in g[c] && parent in g
    ensures Reaches(g, c, parent)
  {
    assert PathBetween(g, [c, parent], c, parent);
  }

  lemma {:induction false} ReachesTransitive(g: Graph, a: Oid, b: Oid, c: Oid)
    requires Reaches(g, a, b) && Reaches(g, b, c)
    ensures Reaches(g, a, c)
  {
    var p :| PathBetween(g, p, a, b);
    var q :| PathBetween(g, q, b, c);
    var r := p + q[1..];
    forall i | 0 <= i < |r| - 1
      ensures r[i + 1] in g[r[i]]
    {
      if i >= |p| {
        assert q[1..][i - |p|] == q[i - |p| + 1];
      }
    }
    assert PathBetween(g, r, a, c);
  }

  lemma {:induction false} StepOfPath(g: Graph, p: seq<Oid>, i: nat)
    requires IsPath(g, p) && i + 1 < |p|
    ensures p[i + 1] in g[p[i]]
  {}

  ghost predicate Closed(g: Graph) {
    forall c, p | c in g && p in g[c] :: p in g
  }

  lemma {:induction false} PathStaysIn(g: Graph, s: set<Oid>, p: seq<Oid>)
    requires IsPath(g, p) && p[0] in s
    requires forall c, parent | c in s && c in g && parent in g[c] :: parent in s
    ensures p[|p| - 1] in s
  {
    if |p| > 1 {
      StepOfPath(g, p, 0);
      PathStaysIn(g, s, p[1..]);
    }
  }

  /** `graph_descendant_of`: a commit does not descend from itself. */
  method GraphDescendantOf(g: Graph, descendant: Oid, ancestor: Oid) returns (b: bool)
    requires Closed(g) && descendant in g
    ensures b <==> descendant != ancestor && Reaches(g, descendant, ancestor)
  {
    var seen, todo := {descendant}, {descendant};
    ReachesItself(g, descendant);
    while todo != {}
      invariant todo <= seen <= g.Keys && descendant in seen
      invariant forall c | c in seen :: Reaches(g, descendant, c)
      invariant forall c, p | c in seen - todo && p in g[c] :: p in seen
      decreases g.Keys - (seen - todo)
    {
      var c :| c in todo;
      var found := set p | p in g[c] && p !in seen;
      forall p | p in g[c]
        ensures Reaches(g, descendant, p)
      {
        ReachesParent(g, c, p);
        ReachesTransitive(g, descendant, c, p);
      }
      assert (seen + found) - (todo - {c} + found) == (seen - todo) + {c};
      seen, todo := seen + found, todo - {c} + found;
    }
    if Reaches(g, descendant, ancestor) {
      var p :| PathBetween(g, p, descendant, ancestor);
      PathStaysIn(g, seen, p);
    }
    b := descendant != ancestor && ancestor in seen;
  }

  // ---------------------------------------------------------------- walks

  /** What a children-first revision walk from `start` yields: each of its ancestors once, no commit
      after one of its parents. */
  ghost predicate ValidWalk(g: Graph, start: Oid, walk: seq<Oid>) {
    && NoDup(walk)
    && (forall c :: c in walk <==> Reaches(g, start, c))
    && (forall i | 0 <= i < |walk| :: walk[i] in g)
    && (forall i, j | 0 <= i < |walk| && 0 <= j < |walk| && walk[j] in g[walk[i]] :: i < j)
  }

  /** What any revision walk yields, whatever its order: its start first, then each ancestor once. */
  ghost predicate AnyWalk(g: Graph, start: Oid, walk: seq<Oid>) {
    && NoDup(walk) && walk != [] && walk[0] == start
    && (forall c :: c in walk <==> Reaches(g, start, c))
  }

  lemma {:induction false} PathDescends(g: Graph, start: Oid, walk: seq<Oid>, p: seq<Oid>, i: nat, j: nat)
    requires ValidWalk(g, start, walk) && i < |walk| && j < |walk|
    requires PathBetween(g, p, walk[i], walk[j])
    ensures i <= j
    decreases |p|
  {
    if |p| > 1 {
      assert PathBetween(g, p[1..], p[1], walk[j]);
      ReachesParent(g, walk[i], p[1]);
      ReachesTransitive(g, start, walk[i], p[1]);
      var k :| 0 <= k < |walk| && walk[k] == p[1];
      PathDescends(g, start, walk, p[1..], k, j);
    }
  }

  lemma {:induction false} WalkDescends(g: Graph, start: Oid, walk: seq<Oid>, i: nat, j: nat)
    requires ValidWalk(g, start, walk) && i < |walk| && j < |walk|
    requires Reaches(g, walk[i], walk[j])
    ensures i <= j
  {
    var p :| PathBetween(g, p, walk[i], walk[j]);
    PathDescends(g, start, walk, p, i, j);
  }

  lemma {:induction false} WalkStarts(g: Graph, start: Oid, walk: seq<Oid>)
    requires ValidWalk(g, start, walk) && start in g
    ensures walk != [] && walk[0] == start
  {
    ReachesItself(g, start);
    var k :| 0 <= k < |walk| && walk[k] == start;
    assert walk[0] in walk;
    WalkDescends(g, start, walk, k, 0);
  }

  /** A graph whose parent relation goes down a rank, as content-hash ids force it to. */
  ghost predicate Ranked(g: Graph, rank: map<Oid, nat>) {
    && g.Keys <= rank.Keys
    && (forall c, p | c in g && p in g[c] :: p in g && rank[p] < rank[c])
  }

  /** Such a graph has a valid walk from every commit. */
  lemma {:induction false} WalkExists(g: Graph, rank: map<Oid, nat>, start: Oid) returns (walk: seq<Oid>)
    requires Ranked(g, rank)
    ensures ValidWalk(g, start, walk)
  {
    var all := set c | c in g && Reaches(g, start, c);
    walk := OrderByRank(rank, all);
    assert forall c :: Reaches(g, start, c) ==> c in g;
    forall i | 0 <= i < |walk|
      ensures walk[i] in g
    {
      assert walk[i] in walk;
    }
  }

  lemma {:induction false} OrderByRank(rank: map<Oid, nat>, s: set<Oid>) returns (ordered: seq<Oid>)
    requires s <= rank.Keys
    ensures NoDup(ordered) && (forall c :: c in ordered <==> c in s)
    ensures forall i, j | 0 <= i < j < |ordered| :: rank[ordered[i]] >= rank[ordered[j]]
  {
    if s == {} {
      return [];
    }
    var top := Highest(rank, s);
    var rest := OrderByRank(rank, s - {top});
    ordered := [top] + rest;
    assert forall j | 0 <= j < |rest| :: rest[j] in rest;
    assert forall c :: c in ordered <==> c == top || c in rest;
  }

  lemma {:induction false} Highest(rank: map<Oid, nat>, s: set<Oid>) returns (top: Oid)
    requires s != {} && s <= rank.Keys
    ensures top in s && forall c | c in s :: rank[c] <= rank[top]
  {
    var x :| x in s;
    if s == {x} {
      return x;
    }
    top := Highest(rank, s - {x});
    if rank[top] < rank[x] {
      top := x;
    }
  }

  // ---------------------------------------------------------------- ahead and behind

  datatype Error = NoCommonAncestor

  /** Index of the first element of `walk` that is in `other`; its length if there is none. */
  function FirstShared(walk: seq<Oid>, other: seq<Oid>): (k: nat)
    ensures k <= |walk|
    ensures k < |walk| ==> walk[k] in other
    ensures forall i | 0 <= i < k :: walk[i] !in other
  {
    if walk == [] || walk[0] in other then 0 else 1 + FirstShared(walk[1..], other)
  }

  function AheadBehind(walkBase: seq<Oid>, walkLatest: seq<Oid>): Result<(seq<Oid>, seq<Oid>), Error> {
    var k := FirstShared(walkBase, walkLatest);
    if k == |walkBase| then Err(NoCommonAncestor)
    else Ok((walkLatest[..FirstShared(walkLatest, [walkBase[k]])], walkBase[..k]))
  }

  /** `get_commits_ahead_behind`: the walks stand for the two kinds of revision walk it makes. */
  method GetCommitsAheadBehind(walkBase: seq<Oid>, walkLatest: seq<Oid>)
    returns (r: Result<(seq<Oid>, seq<Oid>), Error>)
    ensures r == AheadBehind(walkBase, walkLatest)
  {
    var ahead: seq<Oid>, behind: seq<Oid> := [], [];
    var k := 0;
    // scan the ancestry of base for a commit that the ancestry of latest holds too
    while k < |walkBase| && walkBase[k] !in walkLatest
      invariant k <= |walkBase| && behind == walkBase[..k]
      invariant forall i | 0 <= i < k :: walkBase[i] !in walkLatest
    {
      behind := behind + [walkBase[k]];
      k := k + 1;
    }
    if k == |walkBase| {
      return Err(NoCommonAncestor);
    }
    var shared := walkBase[k];
    // scan the ancestry of latest until that commit
    var m := 0;
    while m < |walkLatest| && walkLatest[m] != shared
      invariant m <= |walkLatest| && ahead == walkLatest[..m]
      invariant forall i | 0 <= i < m :: walkLatest[i] != shared
    {
      ahead := ahead + [walkLatest[m]];
      m := m + 1;
    }
    return Ok((ahead, behind));
  }

  ghost predicate Walks(g: Graph, base: Oid, latest: Oid, walkBase: seq<Oid>, walkLatest: seq<Oid>) {
    base in g && latest in g && ValidWalk(g, base, walkBase) && ValidWalk(g, latest, walkLatest)
  }

  lemma {:induction false} ValidIsAnyWalk(g: Graph, start: Oid, walk: seq<Oid>)
    requires ValidWalk(g, start, walk) && start in g
    ensures AnyWalk(g, start, walk)
  {
    WalkStarts(g, start, walk);
  }

  /** On any graph and in any order of the walks: when it fails, when each list is empty, and what `behind` never
      holds. Only that `ahead` is empty whenever base descends from latest rests on children coming first. */
  lemma {:induction false} AheadBehindMeaning(g: Graph, base: Oid, latest: Oid, walkBase: seq<Oid>,
      walkLatest: seq<Oid>)
    requires AnyWalk(g, base, walkBase) && AnyWalk(g, latest, walkLatest)
    ensures var r := AheadBehind(walkBase, walkLatest);
      && (r.Err? <==> !exists c :: Reaches(g, base, c) && Reaches(g, latest, c))
      && (r.Ok? ==>
            && (r.value.1 == [] <==> Reaches(g, latest, base))
            && (r.value.0 == [] ==> Reaches(g, base, latest))
            && (ValidWalk(g, base, walkBase) && Reaches(g, base, latest) ==> r.value.0 == [])
            && (forall c | c in r.value.1 :: Reaches(g, base, c) && !Reaches(g, latest, c)))
  {
    var r := AheadBehind(walkBase, walkLatest);
    var k := FirstShared(walkBase, walkLatest);
    if r.Err? {
      forall c | Reaches(g, base, c)
        ensures !Reaches(g, latest, c)
      {
        assert c in walkBase;
      }
    } else {
      var shared := walkBase[k];
      assert shared in walkBase && Reaches(g, base, shared) && Reaches(g, latest, shared);
      assert r.value.0 == [] <==> walkLatest[0] == shared;
      if ValidWalk(g, base, walkBase) && Reaches(g, base, latest) {
        var i :| 0 <= i < |walkBase| && walkBase[i] == latest;
        assert latest in walkLatest;
        WalkDescends(g, base, walkBase, i, k);
      }
      forall c | c in r.value.1
        ensures Reaches(g, base, c) && !Reaches(g, latest, c)
      {
        assert c in walkBase && c !in walkLatest;
      }
    }
  }

  /** Base's walk gives latest, and none of its ancestors before it. */
  ghost predicate GivesBeforeAncestors(g: Graph, latest: Oid, walkBase: seq<Oid>) {
    exists i :: GivesFirst(g, latest, walkBase, i)
  }

  ghost predicate GivesFirst(g: Graph, latest: Oid, walkBase: seq<Oid>, i: nat) {
    i < |walkBase| && walkBase[i] == latest && forall j | 0 <= j < i :: !Reaches(g, latest, walkBase[j])
  }

  /** In any order of the walks: when exactly `ahead` is empty. */
  lemma {:induction false} AheadEmptyExactly(g: Graph, base: Oid, latest: Oid, walkBase: seq<Oid>, walkLatest: seq<Oid>)
    requires AnyWalk(g, base, walkBase) && AnyWalk(g, latest, walkLatest) && AheadBehind(walkBase, walkLatest).Ok?
    ensures AheadBehind(walkBase, walkLatest).value.0 == [] <==> GivesBeforeAncestors(g, latest, walkBase)
  {
    var k := FirstShared(walkBase, walkLatest);
    assert AheadBehind(walkBase, walkLatest).value.0 == [] <==> walkLatest[0] == walkBase[k];
    forall j | 0 <= j < k
      ensures !Reaches(g, latest, walkBase[j])
    {
      assert walkBase[j] !in walkLatest;
    }
    assert walkBase[k] == latest ==> GivesFirst(g, latest, walkBase, k);
    if i: nat :| GivesFirst(g, latest, walkBase, i) {
      assert walkBase[i] in walkLatest && Reaches(g, latest, walkBase[k]);
      assert i == k;
    }
  }

  lemma {:induction false} CommitsReached(g: Graph, s: set<Oid>, start: Oid, c: Oid)
    requires Reaches(g, start, c) && start in s
    requires forall d, p | d in s && d in g && p in g[d] :: p in s
    ensures c in s
  {
    var p :| PathBetween(g, p, start, c);
    PathStaysIn(g, s, p);
  }

  const SKEWED: Graph := map["b" := ["l", "m"], "l" := ["c"], "m" := ["c"], "c" := []]

  lemma {:induction false} SkewedWalks()
    ensures AnyWalk(SKEWED, "b", ["b", "m", "c", "l"]) && AnyWalk(SKEWED, "l", ["l", "c"]) && Reaches(SKEWED, "b", "l")
  {
    var g, w, v := SKEWED, ["b", "m", "c", "l"], ["l", "c"];
    assert "b"[0] == 'b' && "l"[0] == 'l' && "m"[0] == 'm' && "c"[0] == 'c';
    ReachesItself(g, "b");
    ReachesItself(g, "l");
    ReachesParent(g, "b", "l");
    ReachesParent(g, "b", "m");
    ReachesParent(g, "l", "c");
    ReachesTransitive(g, "b", "l", "c");
    assert w[0] in w && w[1] in w && w[2] in w && w[3] in w && v[0] in v && v[1] in v;
    forall c
      ensures (c in w <==> Reaches(g, "b", c)) && (c in v <==> Reaches(g, "l", c))
    {
      if Reaches(g, "b", c) {
        CommitsReached(g, {"b", "l", "m", "c"}, "b", c);
      }
      if Reaches(g, "l", c) {
        CommitsReached(g, {"l", "c"}, "l", c);
      }
    }
  }

  /** Without it, `ahead` can be filled although base descends from latest: here the walk of `b` gives the shared
      root `c` before its child `l`, as it does when `l` is dated earlier than `c`. */
  lemma {:induction false} SkewedWalkMisleads()
    ensures AnyWalk(SKEWED, "b", ["b", "m", "c", "l"]) && AnyWalk(SKEWED, "l", ["l", "c"]) && Reaches(SKEWED, "b", "l")
    ensures AheadBehind(["b", "m", "c", "l"], ["l", "c"]) == Ok((["l"], ["b", "m"]))
  {
    SkewedWalks();
    var w, v := ["b", "m", "c", "l"], ["l", "c"];
    assert "b"[0] == 'b' && "l"[0] == 'l' && "m"[0] == 'm' && "c"[0] == 'c';
    assert w[1..][1..][1..] == ["l"];
    assert FirstShared(w, v) == 2 && w[..2] == ["b", "m"];
    assert FirstShared(v, ["c"]) == 1 && v[..1] == ["l"];
  }

  // ---------------------------------------------------------------- merge-free histories

  ghost predicate MergeFree(g: Graph, start: Oid) {
    forall c | Reaches(g, start, c) :: |g[c]| <= 1 && forall p | p in g[c] :: p in g
  }

  lemma {:induction false} LastStep(g: Graph, from: Oid, to: Oid) returns (child: Oid)
    requires Reaches(g, from, to) && from != to
    ensures child in g && Reaches(g, from, child) && to in g[child]
  {
    var p :| PathBetween(g, p, from, to);
    child := p[|p| - 2];
    assert PathBetween(g, p[..|p| - 1], from, child);
  }

  /** The walk of a merge-free history goes from each commit to its only parent. */
  lemma {:induction false} WalkIsChain(g: Graph, start: Oid, walk: seq<Oid>, i: nat)
    requires start in g && ValidWalk(g, start, walk) && MergeFree(g, start) && i + 1 < |walk|
    ensures g[walk[i]] == [walk[i + 1]]
  {
    WalkStarts(g, start, walk);
    var to := walk[i + 1];
    assert to in walk;
    var child := LastStep(g, start, to);
    var k :| 0 <= k < |walk| && walk[k] == child;
    assert walk[i] in walk && walk[k] in walk;
    if k < i {
      WalkIsChain(g, start, walk, k);
      assert false;
    }
  }

  lemma {:induction false} ChainReaches(g: Graph, start: Oid, walk: seq<Oid>, i: nat, j: nat)
    requires start in g && ValidWalk(g, start, walk) && MergeFree(g, start) && i <= j < |walk|
    ensures Reaches(g, walk[i], walk[j])
    decreases j - i
  {
    if i == j {
      ReachesItself(g, walk[i]);
    } else {
      WalkIsChain(g, start, walk, i);
      ReachesParent(g, walk[i], walk[i + 1]);
      ChainReaches(g, start, walk, i + 1, j);
      ReachesTransitive(g, walk[i], walk[i + 1], walk[j]);
    }
  }

  /** On merge-free histories both lists are exactly the differences of the two ancestries. */
  lemma {:induction false} MergeFreeDifferences(g: Graph, base: Oid, latest: Oid, walkBase: seq<Oid>,
      walkLatest: seq<Oid>, c: Oid)
    requires Walks(g, base, latest, walkBase, walkLatest)
    requires MergeFree(g, base) && MergeFree(g, latest) && AheadBehind(walkBase, walkLatest).Ok?
    ensures var (ahead, behind) := AheadBehind(walkBase, walkLatest).value;
      && (c in behind <==> Reaches(g, base, c) && !Reaches(g, latest, c))
      && (c in ahead <==> Reaches(g, latest, c) && !Reaches(g, base, c))
  {
    ValidIsAnyWalk(g, base, walkBase);
    ValidIsAnyWalk(g, latest, walkLatest);
    AheadBehindMeaning(g, base, latest, walkBase, walkLatest);
    var k := FirstShared(walkBase, walkLatest);
    var shared := walkBase[k];
    assert shared in walkBase && shared in walkLatest;
    var m := FirstShared(walkLatest, [shared]);
    assert walkLatest[m] == shared;
    if c in walkBase {
      var i :| 0 <= i < |walkBase| && walkBase[i] == c;
      if k <= i {
        ChainReaches(g, base, walkBase, k, i);
        ReachesTransitive(g, latest, shared, c);
      } else {
        assert c in walkBase[..k];
      }
    }
    if c in walkLatest {
      var j :| 0 <= j < |walkLatest| && walkLatest[j] == c;
      if m <= j {
        ChainReaches(g, latest, walkLatest, m, j);
        ReachesTransitive(g, base, shared, c);
        assert c !in walkLatest[..m];
      } else {
        assert c in walkLatest[..m];
        if Reaches(g, base, c) {
          ChainReaches(g, latest, walkLatest, j, m);
          var i :| 0 <= i < |walkBase| && walkBase[i] == c;
          WalkDescends(g, base, walkBase, i, k);
          assert false;
        }
      }
    }
  }

  lemma {:induction false} RootReachesOnlyItself(g: Graph, root: Oid, c: Oid)
    requires root in g && g[root] == [] && Reaches(g, root, c)
    ensures c == root
  {
    var p :| PathBetween(g, p, root, c);
    if |p| > 1 {
      StepOfPath(g, p, 0);
    }
  }

  /** With a merge the lists can miss commits: here `x` is behind and not listed, or the other way round ahead. */
  lemma {:induction false} MergeHidesCommits()
    ensures var g: Graph := map["b" := ["m", "x"], "m" := [], "x" := []];
      && Walks(g, "b", "m", ["b", "m", "x"], ["m"])
      && AheadBehind(["b", "m", "x"], ["m"]) == Ok(([], ["b"]))
      && AheadBehind(["m"], ["b", "m", "x"]) == Ok((["b"], []))
      && Reaches(g, "b", "x") && !Reaches(g, "m", "x")
  {
    var g: Graph := map["b" := ["m", "x"], "m" := [], "x" := []];
    ReachesItself(g, "b");
    ReachesItself(g, "m");
    ReachesParent(g, "b", "m");
    ReachesParent(g, "b", "x");
    forall c | Reaches(g, "m", c)
      ensures c == "m"
    {
      RootReachesOnlyItself(g, "m", c);
    }
    assert forall c | Reaches(g, "b", c) :: c in g;
    assert "b" != "m" && "m" != "x" && "b" != "x" by {
      assert "b"[0] != "m"[0] && "m"[0] != "x"[0] && "b"[0] != "x"[0];
    }
    var w := ["b", "m", "x"];
    assert w[0] == "b" && w[1] == "m" && w[2] == "x";
    assert w[0] in w && w[1] in w && w[2] in w;
    assert AheadBehind(w, ["m"]) == Ok(([], ["b"])) && AheadBehind(["m"], w) == Ok((["b"], [])) by {
      assert FirstShared(w, ["m"]) == 1;
      assert FirstShared(["m"], ["m"]) == FirstShared(["m"], w) == 0;
      assert w[..1] == ["b"] && ["m"][..0] == [];
    }
  }

  // ---------------------------------------------------------------- exactness with merges

  ghost predicate OnlyIn(g: Graph, here: Oid, there: Oid, c: Oid) {
    Reaches(g, here, c) && !Reaches(g, there, c)
  }

  ghost predicate SharedBy(g: Graph, base: Oid, latest: Oid, c: Oid) {
    Reaches(g, base, c) && Reaches(g, latest, c)
  }

  ghost predicate BehindExact(g: Graph, base: Oid, latest: Oid, walkBase: seq<Oid>, walkLatest: seq<Oid>) {
    var r := AheadBehind(walkBase, walkLatest);
    r.Ok? && forall c :: c in r.value.1 <==> OnlyIn(g, base, latest, c)
  }

  ghost predicate AheadExact(g: Graph, base: Oid, latest: Oid, walkBase: seq<Oid>, walkLatest: seq<Oid>) {
    var r := AheadBehind(walkBase, walkLatest);
    r.Ok? && forall c :: c in r.value.0 <==> OnlyIn(g, latest, base, c)
  }

  /** Every commit that only base has descends from every shared one. */
  ghost predicate OwnAboveShared(g: Graph, base: Oid, latest: Oid) {
    forall d, s | OnlyIn(g, base, latest, d) && SharedBy(g, base, latest, s) :: Reaches(g, d, s)
  }

  /** A shared commit that descends from all others, and that every commit only latest has descends from. */
  ghost predicate IsJoint(g: Graph, base: Oid, latest: Oid, joint: Oid) {
    && SharedBy(g, base, latest, joint)
    && (forall s | SharedBy(g, base, latest, s) :: Reaches(g, joint, s))
    && (forall d | OnlyIn(g, latest, base, d) :: Reaches(g, d, joint))
  }

  /** Some walk gives what descends from `through` before everything else. */
  lemma {:induction false} WalkThrough(g: Graph, rank: map<Oid, nat>, start: Oid, through: Oid) returns (walk: seq<Oid>)
    requires Ranked(g, rank)
    ensures ValidWalk(g, start, walk)
    ensures forall i, j | 0 <= i < |walk| && 0 <= j < |walk| && Reaches(g, walk[i], through) &&
      !Reaches(g, walk[j], through) ::
      i < j
  {
    var all := set c | c in g && Reaches(g, start, c);
    var above := set c | c in all && Reaches(g, c, through);
    var first := OrderByRank(rank, above);
    var rest := OrderByRank(rank, all - above);
    walk := first + rest;
    assert forall c :: Reaches(g, start, c) ==> c in g;
    assert forall i | 0 <= i < |first| :: first[i] in above by {
      assert forall i | 0 <= i < |first| :: first[i] in first;
    }
    assert forall i | 0 <= i < |rest| :: rest[i] in all - above by {
      assert forall i | 0 <= i < |rest| :: rest[i] in rest;
    }
    forall i, j | 0 <= i < |walk| && 0 <= j < |walk| && walk[j] in g[walk[i]]
      ensures i < j
    {
      if j < |first| && |first| <= i {
        ReachesParent(g, walk[i], walk[j]);
        ReachesTransitive(g, walk[i], walk[j], through);
        assert false;
      }
    }
  }

  lemma {:induction false} InBehind(g: Graph, base: Oid, latest: Oid, walkBase: seq<Oid>, walkLatest: seq<Oid>, c: Oid)
    requires ValidWalk(g, base, walkBase) && AnyWalk(g, latest, walkLatest) && AheadBehind(walkBase, walkLatest).Ok?
    requires OwnAboveShared(g, base, latest) && OnlyIn(g, base, latest, c)
    ensures c in AheadBehind(walkBase, walkLatest).value.1
  {
    var k := FirstShared(walkBase, walkLatest);
    assert walkBase[k] in walkBase && SharedBy(g, base, latest, walkBase[k]);
    assert c in walkBase;
    var i :| 0 <= i < |walkBase| && walkBase[i] == c;
    WalkDescends(g, base, walkBase, i, k);
    assert c in walkBase[..k];
  }

  /** `behind` is exact for every walk of base if and only if every commit that only base has descends from every
      shared one: a merge below them does no harm. */
  lemma {:induction false} BehindExactly(g: Graph, rank: map<Oid, nat>, base: Oid, latest: Oid, walkLatest: seq<Oid>)
    requires Ranked(g, rank) && base in g && AnyWalk(g, latest, walkLatest)
    requires exists s :: SharedBy(g, base, latest, s)
    ensures (forall walkBase | ValidWalk(g, base, walkBase) :: BehindExact(g, base, latest, walkBase, walkLatest))
       <==> OwnAboveShared(g, base, latest)
  {
    if OwnAboveShared(g, base, latest) {
      forall walkBase | ValidWalk(g, base, walkBase)
        ensures BehindExact(g, base, latest, walkBase, walkLatest)
      {
        ValidIsAnyWalk(g, base, walkBase);
        AheadBehindMeaning(g, base, latest, walkBase, walkLatest);
        forall c | OnlyIn(g, base, latest, c)
          ensures c in AheadBehind(walkBase, walkLatest).value.1
        {
          InBehind(g, base, latest, walkBase, walkLatest, c);
        }
      }
    }
    if forall walkBase | ValidWalk(g, base, walkBase) :: BehindExact(g, base, latest, walkBase, walkLatest) {
      forall d, s | OnlyIn(g, base, latest, d) && SharedBy(g, base, latest, s)
        ensures Reaches(g, d, s)
      {
        var walkBase := WalkThrough(g, rank, base, s);
        assert BehindExact(g, base, latest, walkBase, walkLatest);
        BehindWitness(g, base, latest, walkBase, walkLatest, d, s);
      }
    }
  }

  lemma {:induction false} BehindWitness(g: Graph, base: Oid, latest: Oid, walkBase: seq<Oid>, walkLatest: seq<Oid>,
      d: Oid, s: Oid)
    requires ValidWalk(g, base, walkBase) && AnyWalk(g, latest, walkLatest)
    requires BehindExact(g, base, latest, walkBase, walkLatest) && OnlyIn(g, base, latest, d) &&
      SharedBy(g, base, latest, s)
    requires forall i, j | 0 <= i < |walkBase| && 0 <= j < |walkBase| && Reaches(g, walkBase[i], s) &&
      !Reaches(g, walkBase[j], s) ::
      i < j
    ensures Reaches(g, d, s)
  {
    var k := FirstShared(walkBase, walkLatest);
    assert d in walkBase[..k] && s in walkBase && s in walkLatest;
    var i :| 0 <= i < k && walkBase[i] == d;
    var j :| 0 <= j < |walkBase| && walkBase[j] == s;
    ReachesItself(g, s);
  }

  lemma {:induction false} JointIsShared(g: Graph, base: Oid, latest: Oid, walkBase: seq<Oid>, walkLatest: seq<Oid>,
      joint: Oid)
    requires Walks(g, base, latest, walkBase, walkLatest) && IsJoint(g, base, latest, joint)
    ensures var k := FirstShared(walkBase, walkLatest); k < |walkBase| && walkBase[k] == joint
  {
    var k := FirstShared(walkBase, walkLatest);
    assert joint in walkBase && joint in walkLatest;
    var j :| 0 <= j < |walkBase| && walkBase[j] == joint;
    assert walkBase[k] in walkBase && walkBase[k] in walkLatest;
    WalkDescends(g, base, walkBase, j, k);
  }

  lemma {:induction false} JointMakesExact(g: Graph, base: Oid, latest: Oid, walkBase: seq<Oid>, walkLatest: seq<Oid>,
      joint: Oid)
    requires Walks(g, base, latest, walkBase, walkLatest) && IsJoint(g, base, latest, joint)
    ensures AheadExact(g, base, latest, walkBase, walkLatest)
  {
    JointIsShared(g, base, latest, walkBase, walkLatest, joint);
    var m := FirstShared(walkLatest, [joint]);
    assert joint in walkLatest && walkLatest[m] == joint;
    forall c
      ensures c in walkLatest[..m] <==> OnlyIn(g, latest, base, c)
    {
      if c in walkLatest {
        var i :| 0 <= i < |walkLatest| && walkLatest[i] == c;
        if OnlyIn(g, latest, base, c) {
          WalkDescends(g, latest, walkLatest, i, m);
          assert c in walkLatest[..m];
        } else if i < m {
          assert SharedBy(g, base, latest, c);
          WalkDescends(g, latest, walkLatest, m, i);
          assert false;
        }
      }
    }
  }

  /** What the walk through `through` shows of the commit where the scan stopped. */
  lemma {:induction false} AheadWitness(g: Graph, base: Oid, latest: Oid, walkBase: seq<Oid>, walkLatest: seq<Oid>,
      through: Oid, c: Oid)
    requires Walks(g, base, latest, walkBase, walkLatest) && AheadExact(g, base, latest, walkBase, walkLatest)
    requires forall i, j | 0 <= i < |walkLatest| && 0 <= j < |walkLatest| &&
      Reaches(g, walkLatest[i], through) && !Reaches(g, walkLatest[j], through) :: i < j
    ensures var joint := walkBase[FirstShared(walkBase, walkLatest)];
      && (c == joint && SharedBy(g, base, latest, through) ==> Reaches(g, c, through))
      && (through == joint && OnlyIn(g, latest, base, c) ==> Reaches(g, c, through))
  {
    var joint := walkBase[FirstShared(walkBase, walkLatest)];
    assert joint in walkBase && joint in walkLatest;
    var m := FirstShared(walkLatest, [joint]);
    assert walkLatest[m] == joint;
    if c == joint && SharedBy(g, base, latest, through) {
      assert through !in walkLatest[..m];
      var i :| 0 <= i < |walkLatest| && walkLatest[i] == through;
      ReachesItself(g, through);
    }
    if through == joint && OnlyIn(g, latest, base, c) {
      assert c in walkLatest[..m];
      ReachesItself(g, through);
    }
  }

  /** `ahead` is exact for every pair of walks if and only if some shared commit joins the two histories. */
  lemma {:induction false} AheadExactly(g: Graph, rank: map<Oid, nat>, base: Oid, latest: Oid)
    requires Ranked(g, rank) && base in g && latest in g
    requires exists s :: SharedBy(g, base, latest, s)
    ensures (forall walkBase, walkLatest | Walks(g, base, latest, walkBase, walkLatest) ::
      AheadExact(g, base, latest, walkBase, walkLatest))
       <==> exists joint :: IsJoint(g, base, latest, joint)
  {
    if joint :| IsJoint(g, base, latest, joint) {
      forall walkBase, walkLatest | Walks(g, base, latest, walkBase, walkLatest)
        ensures AheadExact(g, base, latest, walkBase, walkLatest)
      {
        JointMakesExact(g, base, latest, walkBase, walkLatest, joint);
      }
    }
    if forall walkBase, walkLatest | Walks(g, base, latest, walkBase, walkLatest) ::
      AheadExact(g, base, latest, walkBase, walkLatest) {
      var walkBase := WalkExists(g, rank, base);
      var any := WalkExists(g, rank, latest);
      assert Walks(g, base, latest, walkBase, any) && AheadExact(g, base, latest, walkBase, any);
      var joint := walkBase[FirstShared(walkBase, any)];
      assert joint in walkBase && SharedBy(g, base, latest, joint);
      forall s | SharedBy(g, base, latest, s)
        ensures Reaches(g, joint, s)
      {
        var walkLatest := WalkThrough(g, rank, latest, s);
        SameJoint(g, latest, walkBase, any, walkLatest);
        AheadWitness(g, base, latest, walkBase, walkLatest, s, joint);
      }
      forall d | OnlyIn(g, latest, base, d)
        ensures Reaches(g, d, joint)
      {
        var walkLatest := WalkThrough(g, rank, latest, joint);
        SameJoint(g, latest, walkBase, any, walkLatest);
        AheadWitness(g, base, latest, walkBase, walkLatest, joint, d);
      }
      assert IsJoint(g, base, latest, joint);
    }
  }

  /** Where the first scan stops depends on the commits of the other walk alone. */
  lemma {:induction false} SameJoint(g: Graph, latest: Oid, walk: seq<Oid>, other1: seq<Oid>, other2: seq<Oid>)
    requires ValidWalk(g, latest, other1) && ValidWalk(g, latest, other2)
    ensures FirstShared(walk, other1) == FirstShared(walk, other2)
  {
    assert forall c :: c in other1 <==> c in other2;
    SameMembersSameShared(walk, other1, other2);
  }

  lemma {:induction false} SameMembersSameShared(walk: seq<Oid>, other1: seq<Oid>, other2: seq<Oid>)
    requires forall c :: c in other1 <==> c in other2
    ensures FirstShared(walk, other1) == FirstShared(walk, other2)
  {
    if walk != [] {
      SameMembersSameShared(walk[1..], other1, other2);
    }
  }

  /** A merge-free range, oldest first, is a chain of single parents on top of the shared commit. */
  ghost predicate LinearRange(g: Graph, below: Oid, commits: seq<Oid>) {
    forall i | 0 <= i < |commits| ::
      commits[i] in g && g[commits[i]] == [if i == 0 then below else commits[i - 1]]
  }

  function Reversed<T>(s: seq<T>): (r: seq<T>)
    ensures |r| == |s|
  {
    if s == [] then [] else Reversed(s[1..]) + [s[0]]
  }

  lemma {:induction false} ReversedAt<T>(s: seq<T>, i: nat)
    requires i < |s|
    ensures Reversed(s)[i] == s[|s| - 1 - i]
  {
    if i < |s| - 1 {
      ReversedAt(s[1..], i);
    }
  }

  lemma {:induction false} AheadReversedIsLinear(g: Graph, base: Oid, latest: Oid, walkBase: seq<Oid>,
      walkLatest: seq<Oid>)
    requires Walks(g, base, latest, walkBase, walkLatest)
    requires MergeFree(g, latest) && AheadBehind(walkBase, walkLatest).Ok?
    ensures var (ahead, behind) := AheadBehind(walkBase, walkLatest).value;
      exists below :: Reaches(g, base, below) && Reaches(g, latest, below) && LinearRange(g, below, Reversed(ahead))
  {
    var shared := walkBase[FirstShared(walkBase, walkLatest)];
    assert shared in walkBase && shared in walkLatest;
    var m := FirstShared(walkLatest, [shared]);
    assert walkLatest[m] == shared;
    var commits := Reversed(walkLatest[..m]);
    forall i | 0 <= i < |commits|
      ensures commits[i] in g && g[commits[i]] == [if i == 0 then shared else commits[i - 1]]
    {
      WalkIsChain(g, latest, walkLatest, m - 1 - i);
      ReversedAt(walkLatest[..m], i);
      if i > 0 {
        ReversedAt(walkLatest[..m], i - 1);
      }
    }
    assert LinearRange(g, shared, commits);
  }
}
