/** Push reconciliation: what each git server is sent, and which refspecs are refused. */
module Push {
  import opened Wrappers
  import opened Text
  import opened Commits

  /** The local repository as `run_push` uses it. `resolve` is what `get_commit_or_tip_of_reference`
      finds for a commit id or a reference name. The walks are in any order. */
  datatype Repo = Repo(graph: Graph, walk: map<Oid, seq<Oid>>, resolve: map<string, Oid>) {
    ghost predicate Valid() {
      && (forall c | c in graph :: c in walk && AnyWalk(graph, c, walk[c]))
      && (forall r | r in resolve :: resolve[r] in graph)
    }
  }

  /** References of one server, or of the nostr state event, by name. */
  type Refs = map<string, string>

  datatype PushError = BadRefspec | Unresolved | Unrelated | NoServer

  function RefspecToFromTo(refspec: string): Result<(string, string), PushError> {
    if Free(refspec, ':') then Err(BadRefspec)
    else
      SplitHasTwo(refspec, ':');
      var parts := Split(refspec, ':');
      Ok((if StartsWith(parts[0], "+") then parts[0][1..] else parts[0], parts[1]))
  }

  lemma {:induction false} SplitHasTwo(s: string, d: char)
    requires !Free(s, d)
    ensures |Split(s, d)| >= 2
  {
    if s[0] != d {
      SplitHasTwo(s[1..], d);
    }
  }

  function Forced(refspec: string): string {
    if StartsWith(refspec, "+") then refspec else "+" + refspec
  }

  /** The `+` changes neither side of a refspec. */
  lemma {:induction false} ForcedSameSides(refspec: string)
    ensures RefspecToFromTo(Forced(refspec)) == RefspecToFromTo(refspec)
  {
    if !StartsWith(refspec, "+") {
      var forced := "+" + refspec;
      assert forced[1..] == refspec;
      assert Free(forced, ':') == Free(refspec, ':');
      if !Free(refspec, ':') {
        SplitHasTwo(refspec, ':');
        var parts := Split(refspec, ':');
        assert Split(forced, ':') == [['+'] + parts[0]] + parts[1..];
        SplitStart(refspec, ':');
        assert !StartsWith(parts[0], "+");
      }
    }
  }

  lemma {:induction false} SplitStart(s: string, d: char)
    ensures Split(s, d)[0] <= s
  {
    if s != [] && s[0] != d {
      SplitStart(s[1..], d);
      assert s == [s[0]] + s[1..];
    }
  }

  // ---------------------------------------------------------------- one refspec on one server

  datatype Verdict = Nothing | Listed(refspec: string) | Rejected

  ghost predicate Related(g: Graph, a: Oid, b: Oid) {
    exists c :: Reaches(g, a, c) && Reaches(g, b, c)
  }

  /** The remote tip is reachable from the commit that `name` resolves to. */
  ghost predicate Contained(repo: Repo, remoteValue: string, name: string) {
    name in repo.resolve && remoteValue in repo.resolve &&
      Reaches(repo.graph, repo.resolve[name], repo.resolve[remoteValue])
  }

  /** What the ahead test sees of that: the walk from that commit gives the remote tip before any of its ancestors. */
  ghost predicate SeenWithin(repo: Repo, remoteValue: string, name: string) {
    name in repo.resolve && remoteValue in repo.resolve && repo.resolve[name] in repo.walk &&
      GivesBeforeAncestors(repo.graph, repo.resolve[remoteValue], repo.walk[repo.resolve[name]])
  }

  lemma {:induction false} SeenIsContained(repo: Repo, remoteValue: string, name: string)
    requires repo.Valid() && SeenWithin(repo, remoteValue, name)
    ensures Contained(repo, remoteValue, name)
  {
    var walk := repo.walk[repo.resolve[name]];
    var i: nat :| GivesFirst(repo.graph, repo.resolve[remoteValue], walk, i);
    assert walk[i] in walk;
  }

  ghost predicate ChildrenFirst(repo: Repo, name: string) {
    name in repo.resolve && repo.resolve[name] in repo.walk &&
      ValidWalk(repo.graph, repo.resolve[name], repo.walk[repo.resolve[name]])
  }

  lemma {:induction false} ContainedIsSeen(repo: Repo, remoteValue: string, name: string)
    requires ChildrenFirst(repo, name) && Contained(repo, remoteValue, name)
    ensures SeenWithin(repo, remoteValue, name)
  {
    var start, tip := repo.resolve[name], repo.resolve[remoteValue];
    var walk := repo.walk[start];
    assert tip in walk;
    var i: nat :| i < |walk| && walk[i] == tip;
    forall j | 0 <= j < i
      ensures !Reaches(repo.graph, tip, walk[j])
    {
      if Reaches(repo.graph, tip, walk[j]) {
        WalkDescends(repo.graph, start, walk, i, j);
        assert false;
      }
    }
    assert GivesFirst(repo.graph, tip, walk, i);
  }

  /** What becomes of a refspec, in terms of the commit graph and the order of the walks. */
  ghost function Judge(repo: Repo, nostr: Refs, remote: Refs, refspec: string): Result<Verdict, PushError> {
    var (from, to) :- RefspecToFromTo(refspec);
    if from == "" then Ok(if to in remote then Listed(refspec) else Nothing)
    else if from !in repo.resolve then Err(Unresolved)
    else if to !in remote then Ok(Listed(refspec))
    else if to in nostr && nostr[to] == remote[to] then
      Ok(Listed(if Contained(repo, remote[to], from) then refspec else Forced(refspec)))
    else if remote[to] !in repo.resolve then Ok(Rejected)
    else if !Related(repo.graph, repo.resolve[from], repo.resolve[remote[to]]) then Err(Unrelated)
    else if SeenWithin(repo, remote[to], from) then Ok(Listed(refspec))
    else if to !in nostr then Ok(Rejected)
    else if nostr[to] !in repo.resolve then Err(Unresolved)
    else if !Related(repo.graph, repo.resolve[nostr[to]], repo.resolve[remote[to]]) then Err(Unrelated)
    else Ok(if SeenWithin(repo, remote[to], nostr[to]) then Listed(refspec) else Rejected)
  }

  method AheadBehindOf(repo: Repo, base: Oid, latest: Oid) returns (r: Result<(seq<Oid>, seq<Oid>), Error>)
    requires repo.Valid() && base in repo.graph && latest in repo.graph
    ensures r.Err? <==> !Related(repo.graph, base, latest)
    ensures r.Ok? ==> (r.value.0 == [] <==> GivesBeforeAncestors(repo.graph, latest, repo.walk[base]))
    ensures r.Ok? ==> (r.value.1 == [] <==> Reaches(repo.graph, latest, base))
  {
    AheadBehindMeaning(repo.graph, base, latest, repo.walk[base], repo.walk[latest]);
    if AheadBehind(repo.walk[base], repo.walk[latest]).Ok? {
      AheadEmptyExactly(repo.graph, base, latest, repo.walk[base], repo.walk[latest]);
    }
    r := GetCommitsAheadBehind(repo.walk[base], repo.walk[latest]);
  }

  /** The body of the inner loop of `create_rejected_refspecs_and_remotes_refspecs`. */
  method Classify(repo: Repo, nostr: Refs, remote: Refs, refspec: string) returns (r: Result<Verdict, PushError>)
    requires repo.Valid()
    ensures r == Judge(repo, nostr, remote, refspec)
  {
    var sides :- RefspecToFromTo(refspec);
    var (from, to) := sides;
    if from == "" {
      if to in remote {
        return Ok(Listed(refspec));
      }
      return Ok(Nothing);
    }
    if from !in repo.resolve {
      return Err(Unresolved);
    }
    var fromTip := repo.resolve[from];
    if to in nostr {
      var nostrValue := nostr[to];
      if to in remote {
        var remoteValue := remote[to];
        if nostrValue == remoteValue {
          // in sync - existing branch at same state
          var isRemoteTipAncestorOfCommit := false;
          if remoteValue in repo.resolve {
            var ab := AheadBehindOf(repo, repo.resolve[remoteValue], fromTip);
            if ab.Ok? {
              isRemoteTipAncestorOfCommit := ab.value.1 == [];
            } else {
              UnrelatedNotReached(repo.graph, fromTip, repo.resolve[remoteValue]);
            }
          }
          if isRemoteTipAncestorOfCommit {
            return Ok(Listed(refspec));
          }
          return Ok(Listed(Forced(refspec)));
        } else if remoteValue in repo.resolve {
          var remoteValueTip := repo.resolve[remoteValue];
          var local := AheadBehindOf(repo, fromTip, remoteValueTip);
          if local.Err? {
            return Err(Unrelated);
          }
          if local.value.0 == [] {
            // can soft push
            return Ok(Listed(refspec));
          }
          // cant soft push
          if nostrValue !in repo.resolve {
            return Err(Unresolved);
          }
          var nostrSide := AheadBehindOf(repo, repo.resolve[nostrValue], remoteValueTip);
          if nostrSide.Err? {
            return Err(Unrelated);
          }
          if nostrSide.value.0 == [] {
            // ancestor of nostr and we are force pushing anyway
            return Ok(Listed(refspec));
          }
          return Ok(Rejected);
        }
        // the remote's commit is not present locally
        return Ok(Rejected);
      }
      // existing nostr branch not on remote
      return Ok(Listed(refspec));
    } else if to in remote {
      // new to nostr but on remote
      var remoteValue := remote[to];
      if remoteValue in repo.resolve {
        var ab := AheadBehindOf(repo, fromTip, repo.resolve[remoteValue]);
        if ab.Err? {
          return Err(Unrelated);
        }
        if ab.value.0 == [] {
          return Ok(Listed(refspec));
        }
      }
      return Ok(Rejected);
    }
    // in sync - new branch
    return Ok(Listed(refspec));
  }

  lemma {:induction false} UnrelatedNotReached(g: Graph, a: Oid, b: Oid)
    requires a in g && b in g && !Related(g, b, a)
    ensures !Reaches(g, a, b)
  {
    ReachesItself(g, b);
  }

  /** Nothing that the server has is missing from the pushed tip or, if that stands for the server, nostr's value. */
  ghost predicate LosesNothing(repo: Repo, nostr: Refs, remote: Refs, refspec: string) {
    RefspecToFromTo(refspec).Ok? &&
    var (from, to) := RefspecToFromTo(refspec).value;
    from != "" && to in remote ==>
      || Contained(repo, remote[to], from)
      || (to in nostr && (nostr[to] == remote[to] || Contained(repo, remote[to], nostr[to])))
  }

  /** The server's value differs from nostr's and is either not held locally or reachable from neither side. */
  ghost predicate OutOfSync(repo: Repo, nostr: Refs, remote: Refs, refspec: string) {
    RefspecToFromTo(refspec).Ok? &&
    var (from, to) := RefspecToFromTo(refspec).value;
    && from != "" && to in remote
    && !(to in nostr && nostr[to] == remote[to])
    && (remote[to] in repo.resolve ==>
          !Contained(repo, remote[to], from) && !(to in nostr && Contained(repo, remote[to], nostr[to])))
  }

  /** The server's value differs from nostr's, and no walk that is made gives it before its ancestors. */
  ghost predicate Unseen(repo: Repo, nostr: Refs, remote: Refs, refspec: string) {
    RefspecToFromTo(refspec).Ok? &&
    var (from, to) := RefspecToFromTo(refspec).value;
    && from != "" && to in remote
    && !(to in nostr && nostr[to] == remote[to])
    && (remote[to] in repo.resolve ==>
          !SeenWithin(repo, remote[to], from) && !(to in nostr && SeenWithin(repo, remote[to], nostr[to])))
  }

  /** The walks from the pushed tip and from nostr's value give children first. */
  ghost predicate Unskewed(repo: Repo, nostr: Refs, refspec: string) {
    RefspecToFromTo(refspec).Ok? ==>
      var (from, to) := RefspecToFromTo(refspec).value;
      && (from in repo.resolve ==> ChildrenFirst(repo, from))
      && (to in nostr && nostr[to] in repo.resolve ==> ChildrenFirst(repo, nostr[to]))
  }

  lemma {:induction false} ListedLosesNothing(repo: Repo, nostr: Refs, remote: Refs, refspec: string)
    requires repo.Valid()
    requires Judge(repo, nostr, remote, refspec).Ok? && Judge(repo, nostr, remote, refspec).value.Listed?
    ensures LosesNothing(repo, nostr, remote, refspec)
  {
    var (from, to) := RefspecToFromTo(refspec).value;
    if from != "" && to in remote {
      if SeenWithin(repo, remote[to], from) {
        SeenIsContained(repo, remote[to], from);
      } else if to in nostr && SeenWithin(repo, remote[to], nostr[to]) {
        SeenIsContained(repo, remote[to], nostr[to]);
      }
    }
  }

  lemma {:induction false} RejectedIsUnseen(repo: Repo, nostr: Refs, remote: Refs, refspec: string)
    requires Judge(repo, nostr, remote, refspec).Ok?
    ensures Judge(repo, nostr, remote, refspec).value == Rejected <==> Unseen(repo, nostr, remote, refspec)
  {}

  /** In any order of the walks, what is out of sync is unseen. */
  lemma {:induction false} OutOfSyncIsUnseen(repo: Repo, nostr: Refs, remote: Refs, refspec: string)
    requires repo.Valid() && OutOfSync(repo, nostr, remote, refspec)
    ensures Unseen(repo, nostr, remote, refspec)
  {
    var (from, to) := RefspecToFromTo(refspec).value;
    if SeenWithin(repo, remote[to], from) {
      SeenIsContained(repo, remote[to], from);
    }
    if to in nostr && SeenWithin(repo, remote[to], nostr[to]) {
      SeenIsContained(repo, remote[to], nostr[to]);
    }
  }

  /** With children first, nothing else is. */
  lemma {:induction false} UnseenIsOutOfSync(repo: Repo, nostr: Refs, remote: Refs, refspec: string)
    requires Unskewed(repo, nostr, refspec) && Unseen(repo, nostr, remote, refspec)
    ensures OutOfSync(repo, nostr, remote, refspec)
  {
    var (from, to) := RefspecToFromTo(refspec).value;
    if Contained(repo, remote[to], from) {
      ContainedIsSeen(repo, remote[to], from);
    }
    if to in nostr && Contained(repo, remote[to], nostr[to]) {
      ContainedIsSeen(repo, remote[to], nostr[to]);
    }
  }

  /** Writing a refspec with a `+` changes neither whether it is rejected nor whether it is an error. */
  lemma {:induction false} ForcedSameVerdict(repo: Repo, nostr: Refs, remote: Refs, refspec: string)
    ensures var plain, forced := Judge(repo, nostr, remote, refspec), Judge(repo, nostr, remote, Forced(refspec));
      && plain.Ok? == forced.Ok?
      && (plain.Ok? ==> (plain.value == Rejected <==> forced.value == Rejected))
  {
    ForcedSameSides(refspec);
    hide RefspecToFromTo, Forced, Contained, SeenWithin, Related;
  }

  // ---------------------------------------------------------------- all refspecs on all servers

  type ByUrl = map<string, seq<string>>

  ghost predicate Rejects(repo: Repo, nostr: Refs, remote: Refs, refspec: string) {
    Judge(repo, nostr, remote, refspec) == Ok(Rejected)
  }

  /** What one server is sent, in the order of the refspecs. */
  ghost function Listing(repo: Repo, nostr: Refs, remote: Refs, refspecs: seq<string>): seq<string> {
    if refspecs == [] then []
    else
      var verdict := Judge(repo, nostr, remote, refspecs[|refspecs| - 1]);
      Listing(repo, nostr, remote, refspecs[..|refspecs| - 1])
      + (if verdict.Ok? && verdict.value.Listed? then [verdict.value.refspec] else [])
  }

  function Without(xs: seq<string>, dropped: set<string>): (r: seq<string>)
    ensures forall x :: x in r <==> x in xs && x !in dropped
  {
    if xs == [] then []
    else (if xs[0] in dropped then [] else [xs[0]]) + Without(xs[1..], dropped)
  }

  /** The servers recorded against each refspec are those in `urls` that reject it. */
  ghost predicate RejectionsOf(repo: Repo, nostr: Refs, servers: map<string, Refs>, urls: set<string>,
      refspecs: seq<string>, rejected: ByUrl)
    requires urls <= servers.Keys
  {
    && (forall x :: x in rejected ==> x in refspecs && rejected[x] != [])
    && (forall x, url :: x in rejected && url in rejected[x]
                    ==> url in urls && Rejects(repo, nostr, servers[url], x))
    && (forall x, url | x in refspecs && url in urls && Rejects(repo, nostr, servers[url], x) ::
          x in rejected && url in rejected[x])
  }

  /** `after` is `before` with `url` recorded against each refused refspec. */
  ghost predicate Extends(before: ByUrl, after: ByUrl, url: string, refused: set<string>) {
    && (forall x :: x in after <==> x in before || x in refused)
    && (forall x, u | x in after :: u in after[x] <==> (x in before && u in before[x]) || (u == url && x in refused))
  }

  method Record(verdict: Verdict, refspec: string, url: string, listed: seq<string>, rejected: ByUrl,
      ghost before: ByUrl, ghost refused: set<string>)
    returns (listed': seq<string>, rejected': ByUrl, ghost refused': set<string>)
    requires Extends(before, rejected, url, refused)
    ensures listed' == listed + (if verdict.Listed? then [verdict.refspec] else [])
    ensures refused' == refused + (if verdict.Rejected? then {refspec} else {})
    ensures Extends(before, rejected', url, refused')
  {
    listed', rejected', refused' := listed, rejected, refused;
    match verdict {
      case Nothing =>
      case Listed(r) => listed' := listed + [r];
      case Rejected =>
        rejected' := rejected[refspec := if refspec in rejected then rejected[refspec] + [url] else [url]];
        refused' := refused + {refspec};
    }
  }

  lemma {:induction false} NothingRefused(before: ByUrl, url: string)
    ensures Extends(before, before, url, {})
  {}

  method ClassifyServer(repo: Repo, nostr: Refs, remote: Refs, url: string, refspecs: seq<string>, rejectedSoFar: ByUrl)
    returns (r: Result<(seq<string>, ByUrl), PushError>, ghost refused: set<string>)
    requires repo.Valid()
    ensures r.Ok? <==> JudgedFor(repo, nostr, remote, refspecs)
    ensures r.Ok? ==> r.value.0 == Listing(repo, nostr, remote, refspecs)
    ensures r.Ok? ==> forall x :: x in refused <==> x in refspecs && Rejects(repo, nostr, remote, x)
    ensures r.Ok? ==> Extends(rejectedSoFar, r.value.1, url, refused)
  {
    hide Judge, Extends;
    var listed: seq<string>, rejected := [], rejectedSoFar;
    refused := {};
    NothingRefused(rejected, url);
    for i := 0 to |refspecs|
      invariant listed == Listing(repo, nostr, remote, refspecs[..i])
      invariant forall x | x in refspecs[..i] :: Judge(repo, nostr, remote, x).Ok?
      invariant forall x :: x in refused <==> x in refspecs[..i] && Rejects(repo, nostr, remote, x)
      invariant Extends(rejectedSoFar, rejected, url, refused)
    {
      assert refspecs[..i + 1] == refspecs[..i] + [refspecs[i]];
      assert refspecs[..i + 1][..i] == refspecs[..i];
      var verdict := Classify(repo, nostr, remote, refspecs[i]);
      if verdict.Err? {
        assert refspecs[i] in refspecs;
        return Err(verdict.error), refused;
      }
      listed, rejected, refused := Record(verdict.value, refspecs[i], url, listed, rejected, rejectedSoFar, refused);
    }
    assert refspecs[..|refspecs|] == refspecs;
    return Ok((listed, rejected)), refused;
  }

  /** The outcome of classification; the order in which servers are visited does not appear in it. */
  ghost predicate Classified(repo: Repo, nostr: Refs, servers: map<string, Refs>, refspecs: seq<string>,
      rejected: ByUrl, remotes: ByUrl)
  {
    && RejectionsOf(repo, nostr, servers, servers.Keys, refspecs, rejected)
    && (forall url :: url in remotes <==> url in servers && Listing(repo, nostr, servers[url], refspecs) != [])
    && (forall url | url in remotes ::
      remotes[url] == Without(Listing(repo, nostr, servers[url], refspecs), rejected.Keys))
  }

  ghost predicate AllJudged(repo: Repo, nostr: Refs, servers: map<string, Refs>, refspecs: seq<string>) {
    forall url, x | url in servers && x in refspecs :: Judge(repo, nostr, servers[url], x).Ok?
  }

  ghost predicate JudgedFor(repo: Repo, nostr: Refs, remote: Refs, refspecs: seq<string>) {
    forall x | x in refspecs :: Judge(repo, nostr, remote, x).Ok?
  }

  /** Where classification stands once the servers in `urls` have been visited. */
  ghost predicate Visited(repo: Repo, nostr: Refs, servers: map<string, Refs>, urls: set<string>, refspecs: seq<string>,
      listedFor: ByUrl, rejected: ByUrl)
  {
    && urls <= servers.Keys
    && (forall url | url in urls :: JudgedFor(repo, nostr, servers[url], refspecs))
    && RejectionsOf(repo, nostr, servers, urls, refspecs, rejected)
    && (forall url :: url in listedFor <==> url in urls && Listing(repo, nostr, servers[url], refspecs) != [])
    && (forall url | url in listedFor :: listedFor[url] == Listing(repo, nostr, servers[url], refspecs))
  }

  lemma {:induction false} VisitOne(repo: Repo, nostr: Refs, servers: map<string, Refs>, urls: set<string>,
      refspecs: seq<string>, listedFor: ByUrl, rejected: ByUrl, url: string, listed: seq<string>, rejected': ByUrl,
      refused: set<string>)
    requires Visited(repo, nostr, servers, urls, refspecs, listedFor, rejected)
    requires url in servers && url !in urls && JudgedFor(repo, nostr, servers[url], refspecs) &&
      listed == Listing(repo, nostr, servers[url], refspecs)
    requires forall x :: x in refused <==> x in refspecs && Rejects(repo, nostr, servers[url], x)
    requires Extends(rejected, rejected', url, refused)
    ensures Visited(repo, nostr, servers, urls + {url}, refspecs, if listed != [] then listedFor[url := listed]
      else listedFor, rejected')
  {
    ExtendRejections(repo, nostr, servers, urls, url, refspecs, rejected, rejected', refused);
    hide Judge, RejectionsOf, Extends, Listing, Rejects;
  }

  lemma {:induction false} VisitedAll(repo: Repo, nostr: Refs, servers: map<string, Refs>, refspecs: seq<string>,
      listedFor: ByUrl, rejected: ByUrl)
    requires Visited(repo, nostr, servers, servers.Keys, refspecs, listedFor, rejected)
    ensures AllJudged(repo, nostr, servers, refspecs)
    ensures Classified(repo, nostr, servers, refspecs, rejected, map url | url in listedFor ::
      Without(listedFor[url], rejected.Keys))
  {
    forall url, x | url in servers && x in refspecs
      ensures Judge(repo, nostr, servers[url], x).Ok?
    {
      assert JudgedFor(repo, nostr, servers[url], refspecs);
    }
  }

  /** `create_rejected_refspecs_and_remotes_refspecs`, visiting the servers in any order. */
  method CreateRejectedRefspecsAndRemotesRefspecs(repo: Repo, nostr: Refs, servers: map<string, Refs>,
      refspecs: seq<string>)
    returns (r: Result<(ByUrl, ByUrl), PushError>)
    requires repo.Valid()
    ensures r.Ok? <==> AllJudged(repo, nostr, servers, refspecs)
    ensures r.Ok? ==> Classified(repo, nostr, servers, refspecs, r.value.0, r.value.1)
  {
    var listedFor: ByUrl, rejected: ByUrl := map[], map[];
    var todo := servers.Keys;
    while todo != {}
      invariant todo <= servers.Keys
      invariant Visited(repo, nostr, servers, servers.Keys - todo, refspecs, listedFor, rejected)
    {
      hide *;
      var url :| url in todo;
      var server, refused := ClassifyServer(repo, nostr, servers[url], url, refspecs, rejected);
      if server.Err? {
        return Err(server.error);
      }
      VisitOne(repo, nostr, servers, servers.Keys - todo, refspecs, listedFor, rejected, url, server.value.0,
        server.value.1, refused);
      rejected := server.value.1;
      if server.value.0 != [] {
        listedFor := listedFor[url := server.value.0];
      }
      assert servers.Keys - (todo - {url}) == servers.Keys - todo + {url};
      todo := todo - {url};
    }
    assert servers.Keys - todo == servers.Keys;
    VisitedAll(repo, nostr, servers, refspecs, listedFor, rejected);
    // remove rejected refspecs so they dont get pushed to some remotes
    return Ok((rejected, map url | url in listedFor :: Without(listedFor[url], rejected.Keys)));
  }

  lemma {:induction false} ExtendRejections(repo: Repo, nostr: Refs, servers: map<string, Refs>, urls: set<string>,
      url: string, refspecs: seq<string>, before: ByUrl, after: ByUrl, refused: set<string>)
    requires urls <= servers.Keys && url in servers
    requires RejectionsOf(repo, nostr, servers, urls, refspecs, before)
    requires forall x :: x in refused <==> x in refspecs && Rejects(repo, nostr, servers[url], x)
    requires Extends(before, after, url, refused)
    ensures RejectionsOf(repo, nostr, servers, urls + {url}, refspecs, after)
  {
    hide Judge;
    forall x | x in after
      ensures after[x] != []
    {
      if x in before {
        assert before[x][0] in after[x];
      } else {
        assert url in after[x];
      }
    }
  }

  /** Rejection, exactly: the servers recorded against a refspec are those whose value is unseen. */
  lemma {:induction false} RejectedUnseen(repo: Repo, nostr: Refs, servers: map<string, Refs>, refspecs: seq<string>,
      rejected: ByUrl, remotes: ByUrl, x: string, url: string)
    requires AllJudged(repo, nostr, servers, refspecs) && Classified(repo, nostr, servers, refspecs, rejected, remotes)
    ensures (x in rejected && url in rejected[x]) <==>
      (x in refspecs && url in servers && Unseen(repo, nostr, servers[url], x))
  {
    if x in refspecs && url in servers {
      RejectedIsUnseen(repo, nostr, servers[url], x);
      assert Rejects(repo, nostr, servers[url], x) <==> Unseen(repo, nostr, servers[url], x);
    }
  }

  /** In any order of the walks, every server out of sync is recorded, and if the walks give children first, no
      other one is. */
  lemma {:induction false} RejectedExactly(repo: Repo, nostr: Refs, servers: map<string, Refs>, refspecs: seq<string>,
      rejected: ByUrl, remotes: ByUrl, x: string, url: string)
    requires repo.Valid()
    requires AllJudged(repo, nostr, servers, refspecs) && Classified(repo, nostr, servers, refspecs, rejected, remotes)
    ensures x in refspecs && url in servers && OutOfSync(repo, nostr, servers[url], x) ==>
      x in rejected && url in rejected[x]
    ensures Unskewed(repo, nostr, x) && x in rejected && url in rejected[x] ==>
      x in refspecs && url in servers && OutOfSync(repo, nostr, servers[url], x)
  {
    RejectedUnseen(repo, nostr, servers, refspecs, rejected, remotes, x, url);
    if url in servers {
      if OutOfSync(repo, nostr, servers[url], x) {
        OutOfSyncIsUnseen(repo, nostr, servers[url], x);
      }
      if Unskewed(repo, nostr, x) && Unseen(repo, nostr, servers[url], x) {
        UnseenIsOutOfSync(repo, nostr, servers[url], x);
      }
    }
  }

  /** No lost work: whatever is listed for a server, forced or not, loses none of the server's commits, in the
      sense of `LosesNothing`. */
  lemma {:induction false} NoLostWork(repo: Repo, nostr: Refs, servers: map<string, Refs>, refspecs: seq<string>,
      rejected: ByUrl, remotes: ByUrl, url: string, x: string)
    requires repo.Valid() && Classified(repo, nostr, servers, refspecs, rejected, remotes)
    requires url in remotes && x in remotes[url]
    ensures LosesNothing(repo, nostr, servers[url], x)
  {
    ListingMember(repo, nostr, servers[url], refspecs, x);
    var y :| y in refspecs && Judge(repo, nostr, servers[url], y) == Ok(Listed(x));
    ListedAsInput(repo, nostr, servers[url], y, x);
    ListedLosesNothing(repo, nostr, servers[url], y);
    ForcedSameSides(y);
  }

  /** Whatever the order of the servers, the same refspecs are rejected, for the same servers, and
      every server gets the same list. */
  lemma {:induction false} ServerOrderIrrelevant(repo: Repo, nostr: Refs, servers: map<string, Refs>,
      refspecs: seq<string>, rejected1: ByUrl, remotes1: ByUrl, rejected2: ByUrl, remotes2: ByUrl)
    requires Classified(repo, nostr, servers, refspecs, rejected1, remotes1)
    requires Classified(repo, nostr, servers, refspecs, rejected2, remotes2)
    ensures rejected1.Keys == rejected2.Keys && remotes1 == remotes2
    ensures forall x, url | x in rejected1 :: url in rejected1[x] <==> url in rejected2[x]
  {
    hide Judge, Listing, Rejects, Without;
    forall x, url | x in rejected1 && url in rejected1[x]
      ensures x in rejected2 && url in rejected2[x]
    {
      SameRejection(repo, nostr, servers, refspecs, rejected1, rejected2, x, url);
    }
    forall x, url | x in rejected2 && url in rejected2[x]
      ensures x in rejected1 && url in rejected1[x]
    {
      SameRejection(repo, nostr, servers, refspecs, rejected2, rejected1, x, url);
    }
    assert forall x | x in rejected1 :: rejected1[x][0] in rejected1[x];
    assert forall x | x in rejected2 :: rejected2[x][0] in rejected2[x];
    assert rejected1.Keys == rejected2.Keys;
  }

  lemma {:induction false} SameRejection(repo: Repo, nostr: Refs, servers: map<string, Refs>, refspecs: seq<string>,
      a: ByUrl, b: ByUrl, x: string, url: string)
    requires RejectionsOf(repo, nostr, servers, servers.Keys, refspecs, a)
    requires RejectionsOf(repo, nostr, servers, servers.Keys, refspecs, b)
    requires x in a && url in a[x]
    ensures x in b && url in b[x]
  {
    assert Rejects(repo, nostr, servers[url], x);
  }

  ghost predicate RejectedSomewhere(repo: Repo, nostr: Refs, servers: map<string, Refs>, refspec: string) {
    exists url :: url in servers && Rejects(repo, nostr, servers[url], refspec)
  }

  lemma {:induction false} RejectedKeys(repo: Repo, nostr: Refs, servers: map<string, Refs>, refspecs: seq<string>,
      rejected: ByUrl)
    requires RejectionsOf(repo, nostr, servers, servers.Keys, refspecs, rejected)
    ensures forall x :: x in rejected <==> x in refspecs && RejectedSomewhere(repo, nostr, servers, x)
  {
    forall x | x in rejected
      ensures x in refspecs && RejectedSomewhere(repo, nostr, servers, x)
    {
      var url := rejected[x][0];
      assert url in rejected[x];
      assert Rejects(repo, nostr, servers[url], x);
    }
  }

  // ---------------------------------------------------------------- the pipeline of run_push

  predicate IsProposal(refspec: string) {
    Contains(refspec, "refs/heads/pr/")
  }

  method Select(refspecs: seq<string>, proposals: bool) returns (r: seq<string>)
    ensures forall x :: x in r <==> x in refspecs && IsProposal(x) == proposals
  {
    r := [];
    for i := 0 to |refspecs|
      invariant forall x :: x in r <==> x in refspecs[..i] && IsProposal(x) == proposals
    {
      assert refspecs[..i + 1] == refspecs[..i] + [refspecs[i]];
      if IsProposal(refspecs[i]) == proposals {
        r := r + [refspecs[i]];
      }
    }
    assert refspecs[..|refspecs|] == refspecs;
  }

  /** The state that a push is compared with: nostr's, or that of the first server that answered. */
  ghost predicate ExistingState(nostrState: Option<Refs>, gitServers: seq<string>, servers: map<string, Refs>,
      state: Refs)
  {
    if nostrState.Some? then state == nostrState.value
    else exists i :: 0 <= i < |gitServers| && gitServers[i] in servers && state == servers[gitServers[i]]
                     && forall j | 0 <= j < i :: gitServers[j] !in servers
  }

  ghost predicate NoState(nostrState: Option<Refs>, gitServers: seq<string>, servers: map<string, Refs>) {
    nostrState.None? && forall i | 0 <= i < |gitServers| :: gitServers[i] !in servers
  }

  method ChooseExistingState(nostrState: Option<Refs>, gitServers: seq<string>, servers: map<string, Refs>)
    returns (r: Result<Refs, PushError>)
    ensures r.Ok? ==> ExistingState(nostrState, gitServers, servers, r.value)
    ensures r.Err? <==> NoState(nostrState, gitServers, servers)
  {
    if nostrState.Some? {
      return Ok(nostrState.value);
    }
    for i := 0 to |gitServers|
      invariant forall j | 0 <= j < i :: gitServers[j] !in servers
    {
      if gitServers[i] in servers {
        return Ok(servers[gitServers[i]]);
      }
    }
    return Err(NoServer);
  }

  /** What may be handed to `push_to_remote` for one server. */
  ghost predicate Pushable(repo: Repo, nostr: Refs, servers: map<string, Refs>, refspecs: seq<string>, url: string,
      x: string)
  {
    && url in servers && x in refspecs && !IsProposal(x)
    && !RejectedSomewhere(repo, nostr, servers, x)
    && Judge(repo, nostr, servers[url], x) == Ok(Listed(x))
  }

  ghost predicate JudgementFails(repo: Repo, nostr: Refs, servers: map<string, Refs>, refspecs: seq<string>) {
    exists url, x :: url in servers && x in refspecs && !IsProposal(x) && Judge(repo, nostr, servers[url], x).Err?
  }

  /** `run_push` from classification to the lists handed to `push_to_remote`; `publishRejected` is
      whether publishing the events was refused. */
  method RunPush(repo: Repo, refspecs: seq<string>, nostrState: Option<Refs>, gitServers: seq<string>,
      servers: map<string, Refs>, publishRejected: bool)
    returns (r: Result<ByUrl, PushError>, state: Refs)
    requires repo.Valid()
    ensures r.Err? <==> (NoState(nostrState, gitServers, servers) || JudgementFails(repo, state, servers, refspecs))
    ensures r.Ok? ==> ExistingState(nostrState, gitServers, servers, state)
    ensures r.Ok? ==> forall url, x | url in r.value && x in r.value[url] ::
        Pushable(repo, state, servers, refspecs, url, x)
    ensures r.Ok? && !publishRejected ==> forall url, x | Pushable(repo, state, servers, refspecs, url, x) ::
        url in r.value && x in r.value[url]
    ensures r.Ok? && publishRejected ==> r.value == map[]
  {
    state := map[];
    var gitServerRefspecs := Select(refspecs, false);
    var proposalRefspecs := Select(refspecs, true);
    var existing :- ChooseExistingState(nostrState, gitServers, servers);
    state := existing;
    var classified :- CreateRejectedRefspecsAndRemotesRefspecs(repo, existing, servers, gitServerRefspecs);
    var (rejected, remotes) := classified;
    var retained := Without(gitServerRefspecs, rejected.Keys);
    if (retained == [] && proposalRefspecs == []) || publishRejected {
      NothingPushable(repo, existing, servers, refspecs, gitServerRefspecs, rejected, remotes);
      return Ok(map[]), state;
    }
    var handed := map url | url in remotes :: Intersect(remotes[url], retained);
    forall url, x | url in servers
      ensures (url in handed && x in handed[url]) <==> Pushable(repo, existing, servers, refspecs, url, x)
    {
      HandedExactly(repo, existing, servers, gitServerRefspecs, rejected, remotes, url, x);
    }
    return Ok(handed), state;
  }

  function Intersect(xs: seq<string>, kept: seq<string>): (r: seq<string>)
    ensures forall x :: x in r <==> x in xs && x in kept
  {
    if xs == [] then [] else (if xs[0] in kept then [xs[0]] else []) + Intersect(xs[1..], kept)
  }

  lemma {:induction false} ListingMember(repo: Repo, nostr: Refs, remote: Refs, refspecs: seq<string>, x: string)
    ensures x in Listing(repo, nostr, remote, refspecs) <==>
      exists y :: y in refspecs && Judge(repo, nostr, remote, y) == Ok(Listed(x))
  {
    hide Judge;
    if refspecs != [] {
      var front, last := refspecs[..|refspecs| - 1], refspecs[|refspecs| - 1];
      ListingMember(repo, nostr, remote, front, x);
      assert refspecs == front + [last];
    }
  }

  /** A listed refspec is the input or its forced form; what is an input itself is then listed as it stands. */
  lemma {:induction false} ListedAsInput(repo: Repo, nostr: Refs, remote: Refs, y: string, x: string)
    requires Judge(repo, nostr, remote, y) == Ok(Listed(x))
    ensures x == y || x == Forced(y)
    ensures Judge(repo, nostr, remote, x) == Ok(Listed(x))
  {
    ForcedSameSides(y);
    ForcedTwice(y);
    hide RefspecToFromTo, Forced, Contained, SeenWithin, Related;
  }

  lemma {:induction false} ForcedTwice(refspec: string)
    ensures Forced(Forced(refspec)) == Forced(refspec)
  {}

  lemma {:induction false} HandedExactly(repo: Repo, nostr: Refs, servers: map<string, Refs>, refspecs: seq<string>,
      rejected: ByUrl, remotes: ByUrl, url: string, x: string)
    requires Classified(repo, nostr, servers, refspecs, rejected, remotes) && url in servers
    ensures (url in remotes && x in Intersect(remotes[url], Without(refspecs, rejected.Keys))) <==>
      && x in refspecs && !RejectedSomewhere(repo, nostr, servers, x)
      && Judge(repo, nostr, servers[url], x) == Ok(Listed(x))
  {
    RejectedKeys(repo, nostr, servers, refspecs, rejected);
    ListingMember(repo, nostr, servers[url], refspecs, x);
    if x in Listing(repo, nostr, servers[url], refspecs) {
      var y :| y in refspecs && Judge(repo, nostr, servers[url], y) == Ok(Listed(x));
      ListedAsInput(repo, nostr, servers[url], y, x);
    }
  }

  lemma {:induction false} NothingPushable(repo: Repo, nostr: Refs, servers: map<string, Refs>, refspecs: seq<string>,
      selected: seq<string>, rejected: ByUrl, remotes: ByUrl)
    requires Classified(repo, nostr, servers, selected, rejected, remotes)
    requires forall x :: x in selected <==> x in refspecs && !IsProposal(x)
    ensures Without(selected, rejected.Keys) == [] ==>
      forall url, x :: !Pushable(repo, nostr, servers, refspecs, url, x)
  {
    RejectedKeys(repo, nostr, servers, selected, rejected);
    forall url, x | Pushable(repo, nostr, servers, refspecs, url, x)
      ensures x in Without(selected, rejected.Keys)
    {}
  }

  /** A refspec rejected by one server is handed to no server, in either spelling. */
  lemma {:induction false} RejectedHandedToNone(repo: Repo, nostr: Refs, servers: map<string, Refs>,
      refspecs: seq<string>, rejecting: string, url: string, x: string)
    requires rejecting in servers && Rejects(repo, nostr, servers[rejecting], x)
    ensures !Pushable(repo, nostr, servers, refspecs, url, x)
    ensures !Pushable(repo, nostr, servers, refspecs, url, Forced(x))
    ensures forall y | x == Forced(y) :: !Pushable(repo, nostr, servers, refspecs, url, y)
  {
    ForcedSameVerdict(repo, nostr, servers[rejecting], x);
    forall y | x == Forced(y)
      ensures !Pushable(repo, nostr, servers, refspecs, url, y)
    {
      ForcedSameVerdict(repo, nostr, servers[rejecting], y);
    }
  }

  /** When a refspec cannot be judged for a server: it has no `:`; or what is pushed is unknown; or, where the server is
      out of step with nostr and its value is held, a history that it is compared with is unknown or unrelated. */
  lemma {:induction false} UnjudgedExactly(repo: Repo, nostr: Refs, remote: Refs, refspec: string)
    ensures Judge(repo, nostr, remote, refspec).Err? <==>
      (Free(refspec, ':') ||
       var (from, to) := RefspecToFromTo(refspec).value;
       && from != ""
       && (from !in repo.resolve ||
             (&& to in remote && !(to in nostr && nostr[to] == remote[to]) && remote[to] in repo.resolve
              && (!Related(repo.graph, repo.resolve[from], repo.resolve[remote[to]]) ||
                    (&& !SeenWithin(repo, remote[to], from) && to in nostr
                     && (nostr[to] !in repo.resolve ||
                           !Related(repo.graph, repo.resolve[nostr[to]], repo.resolve[remote[to]])))))))
  {}

  /** A deletion is handed to exactly the servers that have the ref. */
  lemma {:induction false} DeletionHanded(repo: Repo, nostr: Refs, servers: map<string, Refs>, refspecs: seq<string>,
      url: string, x: string, to: string)
    requires x in refspecs && !IsProposal(x) && RefspecToFromTo(x) == Ok(("", to))
    ensures Pushable(repo, nostr, servers, refspecs, url, x) <==> url in servers && to in servers[url]
  {}

  /** A refspec that can be judged for a server and is rejected by none reaches it exactly if it deletes a ref that the
      server has, or has its `+` already, or needs none: it makes a new ref, or the server is not in step with nostr,
      or the pushed tip has all that the server has. */
  lemma {:induction false} HandedUnlessForceNeeded(repo: Repo, nostr: Refs, servers: map<string, Refs>,
      refspecs: seq<string>, url: string, x: string)
    requires url in servers && x in refspecs && !IsProposal(x) && !RejectedSomewhere(repo, nostr, servers, x)
    requires Judge(repo, nostr, servers[url], x).Ok?
    ensures var (from, to) := RefspecToFromTo(x).value;
      var remote := servers[url];
      Pushable(repo, nostr, servers, refspecs, url, x) <==>
        if from == "" then to in remote
        else
          || StartsWith(x, "+") || to !in remote
          || !(to in nostr && nostr[to] == remote[to]) || Contained(repo, remote[to], from)
  {
    assert !StartsWith(x, "+") ==> Forced(x)[0] == '+' && Forced(x) != x;
    assert !Rejects(repo, nostr, servers[url], x);
  }

  /** A repository whose `main` was rewound to `a` while nostr and the server have `b` on top of it. */
  const REWOUND := Repo(map["a" := [], "b" := ["a"]], map["a" := ["a"], "b" := ["b", "a"]],
    map["main" := "a", "b" := "b"])

  lemma {:induction false} RewoundIsValid()
    ensures REWOUND.Valid()
  {
    var g, w, v := REWOUND.graph, ["b", "a"], ["a"];
    assert "a"[0] == 'a' && "b"[0] == 'b';
    ReachesItself(g, "a");
    ReachesItself(g, "b");
    ReachesParent(g, "b", "a");
    assert w[0] in w && w[1] in w && v[0] in v;
    forall c
      ensures (c in w <==> Reaches(g, "b", c)) && (c in v <==> Reaches(g, "a", c))
    {
      if Reaches(g, "a", c) {
        CommitsReached(g, {"a"}, "a", c);
      }
      if Reaches(g, "b", c) {
        CommitsReached(g, {"a", "b"}, "b", c);
      }
    }
    assert AnyWalk(g, "a", v) && AnyWalk(g, "b", w);
  }

  /** A text without one of the characters of another does not hold it. */
  lemma {:induction false} LacksCharacter(s: string, sub: string, c: char)
    requires Free(s, c) && !Free(sub, c)
    ensures !Contains(s, sub)
  {
    var i :| 0 <= i < |sub| && sub[i] == c;
    assert forall j | 0 <= j < |s| :: s[j] != c;
    if s != "" {
      LacksCharacter(s[1..], sub, c);
    }
  }

  lemma {:induction false} HoldsPart(before: string, sub: string, after: string)
    ensures Contains(before + (sub + after), sub)
  {
    var s := before + (sub + after);
    if before == "" {
      assert s == sub + after && s[..|sub|] == sub;
    } else {
      assert s[1..] == before[1..] + (sub + after);
      HoldsPart(before[1..], sub, after);
    }
  }

  /** Whatever goes to a branch under `refs/heads/pr/` is for a proposal; `main` is not. */
  lemma {:induction false} ProposalsAre(from: string, name: string)
    ensures IsProposal(from + ":" + ("refs/heads/pr/" + name))
    ensures !IsProposal("refs/heads/main:refs/heads/main") && !IsProposal(":refs/heads/main")
  {
    HoldsPart(from + ":", "refs/heads/pr/", name);
    assert "refs/heads/pr/"[11] == 'p';
    LacksCharacter("refs/heads/main:refs/heads/main", "refs/heads/pr/", 'p');
    LacksCharacter(":refs/heads/main", "refs/heads/pr/", 'p');
  }

  lemma {:induction false} NoProposal(x: string)
    requires Free(x, 'p')
    ensures !IsProposal(x)
  {
    assert "refs/heads/pr/"[11] == 'p';
    LacksCharacter(x, "refs/heads/pr/", 'p');
  }

  const AHEAD: Refs := map["main" := "b"]

  lemma {:induction false} RewoundLacksTip()
    ensures !Contained(REWOUND, "b", "main")
  {
    assert "a"[0] == 'a' && "b"[0] == 'b';
    if Reaches(REWOUND.graph, "a", "b") {
      CommitsReached(REWOUND.graph, {"a"}, "a", "b");
    }
  }

  lemma {:induction false} SidesOf(from: string, to: string)
    requires Free(from, ':') && Free(to, ':') && !StartsWith(from, "+")
    ensures RefspecToFromTo(from + ":" + to) == Ok((from, to))
  {
    SplitFirst(from, ':', to);
    SplitWhole(to, ':');
    assert (from + ":" + to)[|from|] == ':';
  }

  lemma {:induction false} MainForced()
    ensures "main" + ":" + "main" == "main:main" && Forced("main:main") == "+main:main" &&
      Forced("+main:main") == "+main:main"
  {
    assert "main:main"[0] == 'm' && "+main:main"[0] == '+';
    assert "+" + "main:main" == "+main:main";
  }

  lemma {:induction false} MainToMain()
    ensures RefspecToFromTo("main:main") == Ok(("main", "main")) &&
      RefspecToFromTo("+main:main") == Ok(("main", "main"))
  {
    MainForced();
    assert "main"[0] == 'm';
    SidesOf("main", "main");
    ForcedSameSides("main:main");
    hide *;
  }

  lemma {:induction false} RewoundJudged(x: string)
    requires RefspecToFromTo(x) == Ok(("main", "main"))
    ensures Judge(REWOUND, AHEAD, AHEAD, x) == Ok(Listed(Forced(x)))
    ensures !RejectedSomewhere(REWOUND, AHEAD, map["server" := AHEAD], x)
  {
    RewoundLacksTip();
  }

  /** There, pushing `main` without a `+` is classified without a rejection and then reaches no server; with the
      `+` it does. */
  lemma {:induction false} NeededForceIsDropped()
    ensures var servers := map["server" := AHEAD];
      && REWOUND.Valid()
      && Judge(REWOUND, AHEAD, AHEAD, "main:main") == Ok(Listed("+main:main"))
      && !RejectedSomewhere(REWOUND, AHEAD, servers, "main:main")
      && !Pushable(REWOUND, AHEAD, servers, ["main:main"], "server", "main:main")
      && Pushable(REWOUND, AHEAD, servers, ["+main:main"], "server", "+main:main")
  {
    hide *;
    RewoundIsValid();
    MainForced();
    MainToMain();
    PlainIsNotForced();
    RewoundHanded("main:main");
    RewoundHanded("+main:main");
  }

  lemma {:induction false} PlainIsNotForced()
    ensures "main:main" != "+main:main" && Free("main:main", 'p') && Free("+main:main", 'p')
  {
    assert "main:main"[0] == 'm' && "+main:main"[0] == '+';
  }

  lemma {:induction false} RewoundHanded(x: string)
    requires RefspecToFromTo(x) == Ok(("main", "main")) && Free(x, 'p')
    ensures var servers := map["server" := AHEAD];
      && Judge(REWOUND, AHEAD, AHEAD, x) == Ok(Listed(Forced(x)))
      && !RejectedSomewhere(REWOUND, AHEAD, servers, x)
      && (Pushable(REWOUND, AHEAD, servers, [x], "server", x) <==> x == Forced(x))
  {
    NoProposal(x);
    RewoundJudged(x);
    hide Judge, RejectedSomewhere, IsProposal, RefspecToFromTo, Forced;
  }

  // ---------------------------------------------------------------- a rejection for the order of a walk

  /** `main` is at a merge whose walk, by date, gives the root `c` before its child `l`. */
  const DATED := Repo(SKEWED, map["b" := ["b", "m", "c", "l"], "l" := ["l", "c"], "m" := ["m", "c"], "c" := ["c"]],
    map["main" := "b", "l" := "l"])

  const BEHIND: Refs := map["main" := "l"]

  lemma {:induction false} DatedIsValid()
    ensures DATED.Valid()
  {
    var g, v, w := SKEWED, ["m", "c"], ["c"];
    SkewedWalks();
    assert "b"[0] == 'b' && "l"[0] == 'l' && "m"[0] == 'm' && "c"[0] == 'c';
    ReachesItself(g, "m");
    ReachesItself(g, "c");
    ReachesParent(g, "m", "c");
    assert v[0] in v && v[1] in v && w[0] in w;
    forall c
      ensures (c in v <==> Reaches(g, "m", c)) && (c in w <==> Reaches(g, "c", c))
    {
      if Reaches(g, "m", c) {
        CommitsReached(g, {"m", "c"}, "m", c);
      }
      if Reaches(g, "c", c) {
        CommitsReached(g, {"c"}, "c", c);
      }
    }
    assert AnyWalk(g, "m", v) && AnyWalk(g, "c", w);
  }

  lemma {:induction false} DatedUnseen()
    ensures Contained(DATED, "l", "main") && !SeenWithin(DATED, "l", "main")
  {
    SkewedWalks();
    assert "b"[0] == 'b' && "l"[0] == 'l' && "m"[0] == 'm' && "c"[0] == 'c' && "main"[0] == 'm' && |"main"| == 4;
    var walk := DATED.walk["b"];
    assert Reaches(SKEWED, "b", "l");
    ReachesParent(SKEWED, "l", "c");
    forall i: nat
      ensures !GivesFirst(SKEWED, "l", walk, i)
    {
      assert i == 3 ==> Reaches(SKEWED, "l", walk[2]);
    }
  }

  /** There, the server's value is within the pushed tip, and the push is rejected. */
  lemma {:induction false} InStepIsRejected()
    ensures DATED.Valid() && Contained(DATED, "l", "main")
    ensures Judge(DATED, map[], BEHIND, "main:main") == Ok(Rejected)
    ensures !OutOfSync(DATED, map[], BEHIND, "main:main")
  {
    DatedIsValid();
    DatedUnseen();
    MainToMain();
    SkewedWalks();
    hide RefspecToFromTo;
    assert "b"[0] == 'b' && "l"[0] == 'l' && "main"[0] == 'm' && |"main"| == 4 && "main" != "";
    ReachesItself(SKEWED, "l");
    assert Related(SKEWED, "b", "l");
  }

  /** Whatever reaches `push_to_remote` without a `+` and replaces a ref has that ref's tip within the pushed tip, or
      within nostr's value where the server was out of sync. */
  lemma {:induction false} PushedWithoutLoss(repo: Repo, nostr: Refs, servers: map<string, Refs>, refspecs: seq<string>,
      url: string, x: string)
    requires repo.Valid() && Pushable(repo, nostr, servers, refspecs, url, x) && !StartsWith(x, "+")
    ensures var (from, to) := RefspecToFromTo(x).value;
      var remote := servers[url];
      from != "" && to in remote ==>
        || Contained(repo, remote[to], from)
        || (to in nostr && nostr[to] != remote[to] && Contained(repo, remote[to], nostr[to]))
  {
    ListedLosesNothing(repo, nostr, servers[url], x);
    assert Forced(x) != x by {
      assert Forced(x)[0] == '+';
    }
  }
}
