/** The repository state event: how a push updates the recorded refs, and how they travel as tags. */
module RepoStates {
  import opened Wrappers
  import opened Text
  import Commits
  import Events
  import Push

  type Refs = Push.Refs

  function Lookup(m: Refs, name: string): Option<string> {
    if name in m then Some(m[name]) else None
  }

  // ---------------------------------------------------------------- updating the state

  /** The local repository: commits that names resolve to, and tag objects that references peel to. */
  datatype Local = Local(tips: map<string, string>, tagObjects: map<string, string>)

  datatype StateError = BadRefspec | Panic | NoStateEvents | NoIdentifier

  const PEELED := "^{}"

  predicate IsTag(name: string) {
    Contains(name, "refs/tags")
  }

  /** What one refspec makes of the entry for `name`: nothing, a removal, or a value. */
  function Effect(local: Local, refspec: string, name: string): Option<Option<string>> {
    match Push.RefspecToFromTo(refspec)
    case Err(_) => None
    case Ok((from, to)) =>
      if from == "" then
        (if name == to || (IsTag(to) && name == to + PEELED) then Some(None) else None)
      else if from !in local.tips then None
      else if IsTag(to) then
        (if name == to + PEELED then Some(Some(local.tips[from]))
         else if name == to && to in local.tagObjects then Some(Some(local.tagObjects[to]))
         else None)
      else if name == to then Some(Some(local.tips[from]))
      else None
  }

  /** The lookups that the source unwraps. */
  predicate Resolvable(local: Local, refspec: string) {
    match Push.RefspecToFromTo(refspec)
    case Err(_) => false
    case Ok((from, to)) => from == "" || (from in local.tips && (IsTag(to) ==> to in local.tagObjects))
  }

  /** The entry for `name` after a batch: the last refspec that targets it decides. */
  function Decided(local: Local, existing: Refs, refspecs: seq<string>, name: string): Option<string> {
    if refspecs == [] then Lookup(existing, name)
    else
      match Effect(local, refspecs[|refspecs| - 1], name)
      case Some(value) => value
      case None => Decided(local, existing, refspecs[..|refspecs| - 1], name)
  }

  method GenerateUpdatedState(local: Local, existing: Refs, refspecs: seq<string>) returns (r: Result<Refs, StateError>)
    ensures r.Ok? <==> forall x | x in refspecs :: Resolvable(local, x)
    ensures r.Ok? ==> forall name :: Lookup(r.value, name) == Decided(local, existing, refspecs, name)
  {
    var newState := existing;
    for i := 0 to |refspecs|
      invariant forall x | x in refspecs[..i] :: Resolvable(local, x)
      invariant forall name :: Lookup(newState, name) == Decided(local, existing, refspecs[..i], name)
    {
      var refspec := refspecs[i];
      assert refspecs[..i + 1][..i] == refspecs[..i] && refspecs[..i + 1][i] == refspec && refspec in refspecs;
      assert refspecs[..i + 1] == refspecs[..i] + [refspec];
      var sides := Push.RefspecToFromTo(refspec);
      if sides.Err? {
        return Err(BadRefspec);
      }
      var (from, to) := sides.value;
      if from == "" {
        newState := newState - {to};
        if IsTag(to) {
          newState := newState - {to + PEELED};
        }
      } else if from !in local.tips {
        return Err(Panic);
      } else if IsTag(to) {
        newState := newState[to + PEELED := local.tips[from]];
        if to !in local.tagObjects {
          return Err(Panic);
        }
        newState := newState[to := local.tagObjects[to]];
      } else {
        newState := newState[to := local.tips[from]];
      }
    }
    assert refspecs[..|refspecs|] == refspecs;
    return Ok(newState);
  }

  /** What the update cannot resolve: a text without `:`, an unknown source, or a tag without tag object. */
  lemma {:induction false} ResolvableExactly(local: Local, from: string, to: string)
    requires Free(from, ':') && Free(to, ':') && !StartsWith(from, "+")
    ensures Resolvable(local, from + ":" + to) <==>
      from == "" || (from in local.tips && (Contains(to, "refs/tags") ==> to in local.tagObjects))
    ensures !Resolvable(local, to)
  {
    Push.SidesOf(from, to);
    SplitWhole(to, ':');
  }

  predicate Targets(refspec: string, name: string) {
    match Push.RefspecToFromTo(refspec)
    case Err(_) => false
    case Ok((_, to)) => name == to || (IsTag(to) && name == to + PEELED)
  }

  /** Refs that no refspec targets keep their value. */
  lemma {:induction false} UntouchedKept(local: Local, existing: Refs, refspecs: seq<string>, name: string)
    requires forall x | x in refspecs :: !Targets(x, name)
    ensures Decided(local, existing, refspecs, name) == Lookup(existing, name)
  {
    if refspecs != [] {
      assert !Targets(refspecs[|refspecs| - 1], name);
      UntouchedKept(local, existing, refspecs[..|refspecs| - 1], name);
    }
  }

  /** No earlier refspec shows through one that targets the ref. */
  lemma {:induction false} LastTargetDecides(local: Local, existing: Refs, before: seq<string>, refspec: string,
      after: seq<string>, name: string)
    requires Targets(refspec, name) && Resolvable(local, refspec)
    requires forall x | x in after :: !Targets(x, name)
    ensures Decided(local, existing, before + [refspec] + after, name) == Effect(local, refspec, name).value
  {
    var all := before + [refspec] + after;
    if after == [] {
      assert all[|all| - 1] == refspec;
    } else {
      var last := after[|after| - 1];
      assert all[|all| - 1] == last && !Targets(last, name);
      assert all[..|all| - 1] == before + [refspec] + after[..|after| - 1];
      LastTargetDecides(local, existing, before, refspec, after[..|after| - 1], name);
    }
  }

  /** What the last refspec for a ref makes of it. For a tag, the entry has the tag object and the peeled entry the
      commit; for any other ref the entry has the commit; a deletion takes the entry, and a tag's peeled one, away. */
  lemma {:induction false} LastRefspecMeans(local: Local, existing: Refs, before: seq<string>, x: string,
      after: seq<string>, from: string, to: string)
    requires Push.RefspecToFromTo(x) == Ok((from, to)) && Resolvable(local, x)
    requires forall y | y in after :: !Targets(y, to) && !Targets(y, to + "^{}")
    ensures var all, tag := before + [x] + after, Contains(to, "refs/tags");
      && (from == "" ==> Decided(local, existing, all, to) == None)
      && (from == "" && tag ==> Decided(local, existing, all, to + "^{}") == None)
      && (from != "" && !tag ==> from in local.tips && Decided(local, existing, all, to) == Some(local.tips[from]))
      && (from != "" && tag ==>
            && to in local.tagObjects && Decided(local, existing, all, to) == Some(local.tagObjects[to])
            && from in local.tips && Decided(local, existing, all, to + "^{}") == Some(local.tips[from]))
  {
    var peeled := to + "^{}";
    assert PEELED == "^{}" && |peeled| == |to| + 3;
    LastTargetDecides(local, existing, before, x, after, to);
    if Contains(to, "refs/tags") {
      LastTargetDecides(local, existing, before, x, after, peeled);
    }
  }

  /** Every ref under `refs/tags/` is a tag; a branch like `refs/heads/main` is not. */
  lemma {:induction false} TagsAre(name: string)
    ensures IsTag("refs/tags/" + name) && !IsTag("refs/heads/main")
  {
    assert "refs/tags/" + name == "" + ("refs/tags" + ("/" + name));
    Push.HoldsPart("", "refs/tags", "/" + name);
    assert "refs/tags"[7] == 'g';
    Push.LacksCharacter("refs/heads/main", "refs/tags", 'g');
  }

  /** Git reference names hold no `^`, so no refspec targets a peeled entry by itself. */
  predicate TargetsWholeRefs(refspec: string) {
    match Push.RefspecToFromTo(refspec)
    case Err(_) => true
    case Ok((_, to)) => Free(to, '^')
  }

  lemma {:induction false} PairDecidedTogether(local: Local, existing: Refs, refspecs: seq<string>, tag: string)
    requires IsTag(tag) && Free(tag, '^') && forall x | x in refspecs :: TargetsWholeRefs(x) && Resolvable(local, x)
    ensures (tag + PEELED in existing ==> tag in existing) ==>
      (Decided(local, existing, refspecs, tag + PEELED).Some? ==> Decided(local, existing, refspecs, tag).Some?)
    ensures (tag in existing ==> tag + PEELED in existing) ==>
      (Decided(local, existing, refspecs, tag).Some? ==> Decided(local, existing, refspecs, tag + PEELED).Some?)
  {
    if refspecs != [] {
      var last := refspecs[|refspecs| - 1];
      assert TargetsWholeRefs(last) && Resolvable(local, last);
      var (_, to) := Push.RefspecToFromTo(last).value;
      assert (tag + PEELED)[|tag|] == '^' && to != tag + PEELED;
      assert to + PEELED == tag + PEELED ==> to == tag by {
        if to + PEELED == tag + PEELED {
          assert to == (to + PEELED)[..|to|] && tag == (tag + PEELED)[..|tag|];
        }
      }
      assert tag != to + PEELED by {
        assert (to + PEELED)[|to|] == '^';
      }
      PairDecidedTogether(local, existing, refspecs[..|refspecs| - 1], tag);
    }
  }

  /** A batch leaves no peeled entry without its tag, and no tag without its peeled entry, unless it was so before. */
  lemma {:induction false} PairingPreserved(local: Local, existing: Refs, refspecs: seq<string>, result: Refs,
      tag: string)
    requires IsTag(tag) && Free(tag, '^') && forall x | x in refspecs :: TargetsWholeRefs(x) && Resolvable(local, x)
    requires forall name :: Lookup(result, name) == Decided(local, existing, refspecs, name)
    ensures (tag + PEELED in existing ==> tag in existing) ==> (tag + PEELED in result ==> tag in result)
    ensures (tag in existing ==> tag + PEELED in existing) ==> (tag in result ==> tag + PEELED in result)
  {
    PairDecidedTogether(local, existing, refspecs, tag);
    assert tag in result <==> Lookup(result, tag).Some?;
    assert tag + PEELED in result <==> Lookup(result, tag + PEELED).Some?;
  }

  // ---------------------------------------------------------------- what is published and what is pushed

  /** A batch that is published: refspecs for git servers that no server rejects. */
  ghost predicate IsPublished(repo: Push.Repo, nostr: Refs, servers: map<string, Refs>, refspecs: seq<string>,
      batch: seq<string>)
  {
    forall x | x in batch ::
      x in refspecs && !Push.IsProposal(x) && !Push.RejectedSomewhere(repo, nostr, servers, x)
  }

  /** The server is in step with nostr, has what the pushed tip has not, and no force was asked for. */
  ghost predicate NeedsForce(repo: Push.Repo, nostr: Refs, remote: Refs, refspec: string) {
    && Push.RefspecToFromTo(refspec).Ok?
    && var (from, to) := Push.RefspecToFromTo(refspec).value;
    && !StartsWith(refspec, "+") && from != ""
    && to in remote && to in nostr && nostr[to] == remote[to] && !Push.Contained(repo, remote[to], from)
  }

  /** The value published for a ref is that of the last refspec for it, for a tag the tag object. It goes to exactly
      the servers that need no force, and those that do stay at nostr's old value, which is another one. */
  lemma {:induction false} PublishedIsHanded(repo: Push.Repo, local: Local, nostr: Refs, servers: map<string, Refs>,
      refspecs: seq<string>, before: seq<string>, x: string, after: seq<string>, url: string)
    requires repo.Valid() && local.tips == repo.resolve && !Push.JudgementFails(repo, nostr, servers, refspecs)
    requires IsPublished(repo, nostr, servers, refspecs, before + [x] + after) && Resolvable(local, x)
    requires var (from, to) := Push.RefspecToFromTo(x).value;
      from != "" && forall y | y in after :: !Targets(y, to) && !Targets(y, to + "^{}")
    requires url in servers
    ensures var (from, to) := Push.RefspecToFromTo(x).value;
      && (IsTag(to) ==> to in local.tagObjects)
      && Decided(local, nostr, before + [x] + after, to) ==
           Some(if IsTag(to) then local.tagObjects[to] else repo.resolve[from])
      && (Push.Pushable(repo, nostr, servers, refspecs, url, x) <==> !NeedsForce(repo, nostr, servers[url], x))
      && (NeedsForce(repo, nostr, servers[url], x) ==>
            && servers[url][to] == nostr[to]
            && (nostr[to] in repo.resolve ==> repo.resolve[nostr[to]] != repo.resolve[from]))
  {
    var (from, to) := Push.RefspecToFromTo(x).value;
    assert x in before + [x] + after;
    LastRefspecMeans(local, nostr, before, x, after, from, to);
    assert Push.Judge(repo, nostr, servers[url], x).Ok?;
    assert !Push.Rejects(repo, nostr, servers[url], x);
    Push.HandedUnlessForceNeeded(repo, nostr, servers, refspecs, url, x);
    Commits.ReachesItself(repo.graph, repo.resolve[from]);
  }

  /** When a published batch deletes a ref last, the entry is gone, and the refspec is handed to exactly the servers
      that have the ref. */
  lemma {:induction false} DeletionIsHanded(repo: Push.Repo, local: Local, nostr: Refs, servers: map<string, Refs>,
      refspecs: seq<string>, before: seq<string>, x: string, after: seq<string>, to: string, url: string)
    requires IsPublished(repo, nostr, servers, refspecs, before + [x] + after)
    requires Push.RefspecToFromTo(x) == Ok(("", to))
    requires forall y | y in after :: !Targets(y, to) && !Targets(y, to + "^{}")
    ensures Decided(local, nostr, before + [x] + after, to) == None
    ensures Push.Pushable(repo, nostr, servers, refspecs, url, x) <==> url in servers && to in servers[url]
  {
    assert x in before + [x] + after;
    LastRefspecMeans(local, nostr, before, x, after, "", to);
    Push.DeletionHanded(repo, nostr, servers, refspecs, url, x, to);
  }

  /** So it reaches some server if and only if some server needs no force. */
  lemma {:induction false} PublishedReachesSome(repo: Push.Repo, local: Local, nostr: Refs, servers: map<string, Refs>,
      refspecs: seq<string>, before: seq<string>, x: string, after: seq<string>)
    requires repo.Valid() && local.tips == repo.resolve && !Push.JudgementFails(repo, nostr, servers, refspecs)
    requires IsPublished(repo, nostr, servers, refspecs, before + [x] + after) && Resolvable(local, x)
    requires var (from, to) := Push.RefspecToFromTo(x).value;
      from != "" && forall y | y in after :: !Targets(y, to) && !Targets(y, to + "^{}")
    ensures (exists url :: Push.Pushable(repo, nostr, servers, refspecs, url, x)) <==>
      exists url :: url in servers && !NeedsForce(repo, nostr, servers[url], x)
  {
    hide *;
    forall url
      ensures Push.Pushable(repo, nostr, servers, refspecs, url, x) <==>
        url in servers && !NeedsForce(repo, nostr, servers[url], x)
    {
      if url in servers {
        PublishedIsHanded(repo, local, nostr, servers, refspecs, before, x, after, url);
      } else {
        NotPushable(repo, nostr, servers, refspecs, url, x);
      }
    }
  }

  lemma {:induction false} NotPushable(repo: Push.Repo, nostr: Refs, servers: map<string, Refs>,
      refspecs: seq<string>, url: string, x: string)
    requires url !in servers
    ensures !Push.Pushable(repo, nostr, servers, refspecs, url, x)
  {}

  /** A rewound branch: its new value is published, the only server keeps the old one, and nothing is handed to it. */
  lemma {:induction false} PublishedNowhere()
    ensures var servers := map["server" := Push.AHEAD];
      && Decided(Local(Push.REWOUND.resolve, map[]), Push.AHEAD, ["main:main"], "main") == Some("a")
      && servers["server"]["main"] == "b" && "a" != "b"
      && !Push.RejectedSomewhere(Push.REWOUND, Push.AHEAD, servers, "main:main")
      && forall url :: !Push.Pushable(Push.REWOUND, Push.AHEAD, servers, ["main:main"], url, "main:main")
  {
    hide *;
    var servers := map["server" := Push.AHEAD];
    Push.NeededForceIsDropped();
    RewoundEffect();
    AheadAtB();
    LastTargetDecides(Local(Push.REWOUND.resolve, map[]), Push.AHEAD, [], "main:main", [], "main");
    assert [] + ["main:main"] + [] == ["main:main"];
    forall url
      ensures !Push.Pushable(Push.REWOUND, Push.AHEAD, servers, ["main:main"], url, "main:main")
    {
      if url != "server" {
        NotPushable(Push.REWOUND, Push.AHEAD, servers, ["main:main"], url, "main:main");
      }
    }
  }

  lemma {:induction false} AheadAtB()
    ensures "main" in Push.AHEAD && Push.AHEAD["main"] == "b" && "a" != "b"
  {
    assert "a"[0] == 'a' && "b"[0] == 'b';
  }

  lemma {:induction false} RewoundEffect()
    ensures var local := Local(Push.REWOUND.resolve, map[]);
      && Effect(local, "main:main", "main") == Some(Some("a"))
      && Targets("main:main", "main") && Resolvable(local, "main:main")
  {
    Push.MainToMain();
    NoTag("main");
    hide Push.RefspecToFromTo, IsTag;
    assert "b"[0] == 'b' && "main"[0] == 'm' && |"main"| == 4;
  }

  lemma {:induction false} NoTag(name: string)
    requires |name| < 9
    ensures !IsTag(name)
  {
    if name != "" {
      NoTag(name[1..]);
    }
  }

  // ---------------------------------------------------------------- the state event

  datatype StateEvent = StateEvent(createdAt: nat, tags: seq<Events.Tag>)

  predicate AdmissibleName(name: string) {
    StartsWith(name, "refs/heads/") || StartsWith(name, "refs/tags") || StartsWith(name, "HEAD")
  }

  predicate AdmissibleValue(value: string) {
    IsOid(value) || Contains(value, "ref: refs/")
  }

  /** `tags` carry `identifier` and one tag per entry of `state`. */
  ghost predicate Carries(tags: seq<Events.Tag>, identifier: string, state: Refs) {
    && tags != [] && tags[0] == ["d", identifier]
    && (forall i | 1 <= i < |tags| :: |tags[i]| == 2 && tags[i][0] in state && tags[i][1] == state[tags[i][0]])
    && (forall name | name in state :: [name, state[name]] in tags[1..])
  }

  /** `RepoState::build`, with the entries of the map in any order. */
  method Build(identifier: string, state: Refs) returns (tags: seq<Events.Tag>)
    ensures Carries(tags, identifier, state)
  {
    tags := [["d", identifier]];
    var todo := state.Keys;
    while todo != {}
      invariant todo <= state.Keys
      invariant tags != [] && tags[0] == ["d", identifier]
      invariant forall i | 1 <= i < |tags| :: |tags[i]| == 2 && tags[i][0] in state && tags[i][1] == state[tags[i][0]]
      invariant forall name | name in state.Keys - todo :: [name, state[name]] in tags[1..]
    {
      var name :| name in todo;
      ghost var before := tags;
      tags := tags + [[name, state[name]]];
      assert tags[1..] == before[1..] + [[name, state[name]]];
      todo := todo - {name};
    }
  }

  /** The value of the last admissible tag for `name`. */
  function LastAdmissible(tags: seq<Events.Tag>, name: string): Option<string> {
    if tags == [] then None
    else
      var last := tags[|tags| - 1];
      if |last| >= 2 && last[0] == name && AdmissibleName(name) && AdmissibleValue(last[1]) then Some(last[1])
      else LastAdmissible(tags[..|tags| - 1], name)
  }

  function Identifier(tags: seq<Events.Tag>): Option<string> {
    if tags == [] then None
    else if |tags[0]| >= 2 && tags[0][0] == "d" then Some(tags[0][1])
    else Identifier(tags[1..])
  }

  predicate IsOldest(events: seq<StateEvent>, i: nat) {
    && i < |events|
    && (forall j | 0 <= j < |events| :: events[i].createdAt <= events[j].createdAt)
    && (forall j | 0 <= j < i :: events[i].createdAt < events[j].createdAt)
  }

  predicate IsNewest(events: seq<StateEvent>, i: nat) {
    i < |events| && forall j | 0 <= j < |events| :: events[j].createdAt <= events[i].createdAt
  }

  lemma {:induction false} OldestExists(events: seq<StateEvent>) returns (i: nat)
    requires events != []
    ensures IsOldest(events, i)
  {
    if |events| == 1 {
      return 0;
    }
    var last := |events| - 1;
    i := OldestExists(events[..last]);
    if events[last].createdAt < events[i].createdAt {
      i := last;
    }
  }

  /** The event taken is a newest one if and only if all are equally old. */
  lemma {:induction false} OldestIsNewest(events: seq<StateEvent>)
    ensures (forall i | IsOldest(events, i) :: IsNewest(events, i)) <==>
      forall j, k | 0 <= j < |events| && 0 <= k < |events| :: events[j].createdAt == events[k].createdAt
  {
    if events != [] {
      var i := OldestExists(events);
    }
  }

  /** What the tags of one event are parsed to. */
  ghost predicate ParsedAs(tags: seq<Events.Tag>, r: Result<(string, Refs), StateError>) {
    match Identifier(tags)
    case None => r == Err(NoIdentifier)
    case Some(identifier) => r.Ok? && r.value.0 == identifier && forall name ::
      Lookup(r.value.1, name) == LastAdmissible(tags, name)
  }

  method ParseTags(tags: seq<Events.Tag>) returns (r: Result<(string, Refs), StateError>)
    ensures ParsedAs(tags, r)
  {
    var state: Refs := map[];
    for i := 0 to |tags|
      invariant forall name :: Lookup(state, name) == LastAdmissible(tags[..i], name)
    {
      assert tags[..i + 1][..i] == tags[..i];
      var tag := tags[i];
      if tag != [] && AdmissibleName(tag[0]) && |tag| > 1 && AdmissibleValue(tag[1]) {
        state := state[tag[0] := tag[1]];
      }
    }
    assert tags[..|tags|] == tags;
    match Identifier(tags) {
      case None => return Err(NoIdentifier);
      case Some(identifier) => return Ok((identifier, state));
    }
  }

  /** `RepoState::try_from`: sorting by time and taking the first selects the oldest event, of
      equally old ones the first. */
  method TryFrom(events: seq<StateEvent>) returns (r: Result<(string, Refs), StateError>)
    ensures events == [] ==> r == Err(NoStateEvents)
    ensures events != [] ==> exists i: nat :: IsOldest(events, i) && ParsedAs(events[i].tags, r)
  {
    if events == [] {
      return Err(NoStateEvents);
    }
    var first := 0;
    for i := 1 to |events|
      invariant first < i && IsOldest(events[..i], first)
    {
      if events[i].createdAt < events[first].createdAt {
        first := i;
      }
    }
    assert events[..|events|] == events;
    r := ParseTags(events[first].tags);
  }

  /** A state published at time 1, and the one that replaces it at time 2. */
  const REPLACED := [StateEvent(1, [["d", "repo"], ["HEAD", "ref: refs/heads/old"]]),
                     StateEvent(2, [["d", "repo"], ["HEAD", "ref: refs/heads/new"]])]

  lemma {:induction false} HeadCarried(value: string)
    requires AdmissibleValue(value)
    ensures LastAdmissible([["d", "repo"], ["HEAD", value]], "HEAD") == Some(value)
    ensures Identifier([["d", "repo"], ["HEAD", value]]) == Some("repo")
  {
    assert AdmissibleName("HEAD");
  }

  lemma {:induction false} PointsToBranch(name: string)
    ensures Contains("ref: refs/" + name, "ref: refs/")
  {
    assert StartsWith("ref: refs/" + name, "ref: refs/");
  }

  /** Of these, the old state is read. */
  lemma {:induction false} OldStateIsRead(r: Result<(string, Refs), StateError>)
    requires exists i: nat :: IsOldest(REPLACED, i) && ParsedAs(REPLACED[i].tags, r)
    ensures r.Ok? && Lookup(r.value.1, "HEAD") == Some("ref: refs/heads/old")
    ensures LastAdmissible(REPLACED[1].tags, "HEAD") == Some("ref: refs/heads/new") && IsNewest(REPLACED, 1)
  {
    var i: nat :| IsOldest(REPLACED, i) && ParsedAs(REPLACED[i].tags, r);
    assert REPLACED[0].createdAt == 1 && REPLACED[1].createdAt == 2;
    assert i == 0;
    PointsToBranch("heads/old");
    PointsToBranch("heads/new");
    assert "ref: refs/" + "heads/old" == "ref: refs/heads/old";
    assert "ref: refs/" + "heads/new" == "ref: refs/heads/new";
    HeadCarried("ref: refs/heads/old");
    HeadCarried("ref: refs/heads/new");
  }

  /** Publishing a state and parsing it back gives the identifier and the admissible part of the map. */
  lemma {:induction false} StateRoundTrip(tags: seq<Events.Tag>, identifier: string, state: Refs, name: string)
    requires Carries(tags, identifier, state)
    ensures Identifier(tags) == Some(identifier)
    ensures LastAdmissible(tags, name)
         == if name in state && AdmissibleName(name) && AdmissibleValue(state[name]) then Some(state[name]) else None
  {
    if name in state && AdmissibleName(name) && AdmissibleValue(state[name]) {
      var i :| 0 <= i < |tags[1..]| && tags[1..][i] == [name, state[name]];
      assert tags[i + 1] == [name, state[name]];
      AdmissibleFound(tags, identifier, state, name, i + 1);
    } else {
      AdmissibleMissing(tags, identifier, state, name);
    }
  }

  /** Branches and tags at 40-digit ids, and `HEAD` at a branch, are published and read back. */
  lemma {:induction false} BranchesRoundTrip(tags: seq<Events.Tag>, identifier: string, state: Refs, name: string,
      id: string)
    requires Carries(tags, identifier, state) && |id| == 40
    requires forall i | 0 <= i < 40 :: '0' <= id[i] <= '9' || 'a' <= id[i] <= 'f'
    ensures var branch, tag := "refs/heads/" + name, "refs/tags/" + name;
      && (branch in state && state[branch] == id ==> LastAdmissible(tags, branch) == Some(id))
      && (tag in state && state[tag] == id ==> LastAdmissible(tags, tag) == Some(id))
      && (tag + "^{}" in state && state[tag + "^{}"] == id ==> LastAdmissible(tags, tag + "^{}") == Some(id))
    ensures "HEAD" in state && state["HEAD"] == "ref: refs/" + name ==>
      LastAdmissible(tags, "HEAD") == Some("ref: refs/" + name)
  {
    var branch, tag := "refs/heads/" + name, "refs/tags/" + name;
    PointsToBranch(name);
    assert "refs/heads/" <= branch && "refs/tags" <= tag && "refs/tags" <= tag + "^{}";
    StateRoundTrip(tags, identifier, state, branch);
    StateRoundTrip(tags, identifier, state, tag);
    StateRoundTrip(tags, identifier, state, tag + "^{}");
    StateRoundTrip(tags, identifier, state, "HEAD");
  }

  /** Nothing else is read: only branches, tags and `HEAD`, and only ids and references. */
  lemma {:induction false} ReadIsAdmissible(tags: seq<Events.Tag>, name: string)
    requires LastAdmissible(tags, name).Some?
    ensures "refs/heads/" <= name || "refs/tags" <= name || "HEAD" <= name
    ensures var value := LastAdmissible(tags, name).value;
      (1 <= |value| <= 40 && IsHex(value)) || Contains(value, "ref: refs/")
  {
    var last := tags[|tags| - 1];
    if !(|last| >= 2 && last[0] == name && AdmissibleName(name) && AdmissibleValue(last[1])) {
      ReadIsAdmissible(tags[..|tags| - 1], name);
    }
  }

  lemma {:induction false} AdmissibleFound(tags: seq<Events.Tag>, identifier: string, state: Refs, name: string, i: nat)
    requires name in state && AdmissibleName(name) && AdmissibleValue(state[name])
    requires forall k | 1 <= k < |tags| :: |tags[k]| == 2 && tags[k][0] in state && tags[k][1] == state[tags[k][0]]
    requires 1 <= i < |tags| && tags[i] == [name, state[name]]
    ensures LastAdmissible(tags, name) == Some(state[name])
  {
    if i < |tags| - 1 {
      AdmissibleFound(tags[..|tags| - 1], identifier, state, name, i);
    }
  }

  lemma {:induction false} AdmissibleMissing(tags: seq<Events.Tag>, identifier: string, state: Refs, name: string)
    requires !(name in state && AdmissibleName(name) && AdmissibleValue(state[name]))
    requires tags != [] ==> tags[0] == ["d", identifier]
    requires forall k | 1 <= k < |tags| :: |tags[k]| == 2 && tags[k][0] in state && tags[k][1] == state[tags[k][0]]
    ensures LastAdmissible(tags, name) == None
  {
    if tags != [] {
      AdmissibleMissing(tags[..|tags| - 1], identifier, state, name);
      if |tags| == 1 && name == "d" {
        assert name[0] == 'd';
      }
    }
  }
}
