/** All relays together: what is merged of their reports, in terms of the events they showed. */
module Relays {
  import opened Wrappers
  import opened Text
  import opened Codecs
  import opened Events
  import opened Reports
  import opened Fetch
  import Commits

  /** The request made of a relay that is only asked for profiles: those missing and those to update. */
  function ForProfiles(request: FetchRequest): FetchRequest {
    request.(coordinates := [], proposals := {},
             missingContributorProfiles := request.missingContributorProfiles + request.profilesToFetch.Keys)
  }

  /** Each relay was asked for everything or for profiles alone, and reported what it showed if it could be reached. */
  ghost predicate Reported(parse: Parser, request: FetchRequest, requests: seq<FetchRequest>, reports: seq<RelayResult>,
      seen: seq<set<Event>>)
  {
    |requests| == |seen| == |reports| && forall i | 0 <= i < |reports| ::
      ReportedBy(parse, request, requests[i], reports[i], seen[i])
  }

  ghost predicate ReportedBy(parse: Parser, request: FetchRequest, asked: FetchRequest, report: RelayResult,
      seen: set<Event>)
  {
    && (asked == request || (asked == ForProfiles(request) && forall e | e in seen :: e.kind in {Metadata, RelayList}))
    && (if report.Ok? then ReportOf(parse, asked, seen, report.value) && RepliesReported(asked, seen, report.value)
        else seen == {})
  }

  function SeenAnywhere(seen: seq<set<Event>>): set<Event> {
    set i, e | 0 <= i < |seen| && e in seen[i] :: e
  }

  function AllUpdates(request: FetchRequest, events: set<Event>): set<Update> {
    set e, u | e in events && u in UpdateOf(request, e) :: u
  }

  /** The profiles that a relay was asked for as missing, and showed. */
  function NewProfiles(requests: seq<FetchRequest>, seen: seq<set<Event>>): set<PublicKey> {
    set i, e, p | 0 <= i < |seen| && i < |requests| && e in seen[i] && p in NewProfileOf(requests[i], e) :: p
  }

  /** The profiles that a relay showed in a newer version than the one known. */
  function UpdatedProfiles(requests: seq<FetchRequest>, seen: seq<set<Event>>): set<PublicKey> {
    set i, e, p | 0 <= i < |seen| && i < |requests| && e in seen[i] && p in ProfileUpdateOf(requests[i], e) :: p
  }

  /** A relay asked for profiles alone reports as one asked for everything would, but for the profiles. */
  lemma {:induction false} ReportsAlike(parse: Parser, request: FetchRequest, asked: FetchRequest, report: RelayResult,
      seen: set<Event>)
    requires ReportedBy(parse, request, asked, report, seen)
    ensures report.Ok? ==> report.value.coordinates == AllListed(parse, request, seen) - Requested(request)
    ensures report.Ok? ==> report.value.proposals == FreshRoots(request, seen)
    ensures report.Ok? ==> StateIsBest(request.state, States(request, seen), report.value.updatedState)
    ensures report.Ok? ==> UpdatesOf(report.value) == AllUpdates(request, seen)
    ensures report.Ok? ==> RepliesReported(request, seen, report.value)
    ensures report.Ok? ==> report.value.contributorProfiles == set e, p | e in seen && p in NewProfileOf(asked, e) :: p
    ensures report.Ok? ==> report.value.profileUpdates == set e, p | e in seen && p in ProfileUpdateOf(asked, e) :: p
  {
    if report.Ok? && asked != request {
      assert States(asked, seen) == States(request, seen);
    }
  }

  /** Over all relays, whichever showed what and whatever order they finished in: the merged report has the newest
      state event shown that beats the cached one, the coordinates and proposals that the events shown amount to,
      one entry with the greatest time for each announcement updated, the profiles each relay was asked for and
      showed, and of the commits and statuses shown at least those under no proposal reported. */
  lemma {:induction false} AllRelaysMerged(parse: Parser, request: FetchRequest, requests: seq<FetchRequest>,
      reports: seq<RelayResult>, seen: seq<set<Event>>, out: FetchReport)
    requires Reported(parse, request, requests, reports, seen) && Merged(reports, out)
    ensures request.state.Some? ==> BestOver(request.state.value, States(request, SeenAnywhere(seen)), out.updatedState)
    ensures out.coordinates == AllListed(parse, request, SeenAnywhere(seen)) - Requested(request)
    ensures out.proposals == FreshRoots(request, SeenAnywhere(seen))
    ensures LatestOf(AllUpdates(request, SeenAnywhere(seen)), out.updatedAnnouncements)
    ensures out.contributorProfiles == NewProfiles(requests, seen) &&
      out.profileUpdates == UpdatedProfiles(requests, seen)
    ensures RepliesReported(request, SeenAnywhere(seen), out)
  {
    RepliesMerged(parse, request, requests, reports, seen, out);
    if request.state.Some? {
      StatesMerged(parse, request, requests, reports, seen, out);
    }
    CoordinatesMerged(parse, request, requests, reports, seen, out);
    ProposalsMerged(parse, request, requests, reports, seen, out);
    UpdatesMerged(parse, request, requests, reports, seen, out);
    NewProfilesMerged(parse, request, requests, reports, seen, out);
    UpdatedProfilesMerged(parse, request, requests, reports, seen, out);
  }

  lemma {:induction false} StatesMerged(parse: Parser, request: FetchRequest, requests: seq<FetchRequest>,
      reports: seq<RelayResult>, seen: seq<set<Event>>, out: FetchReport)
    requires Reported(parse, request, requests, reports, seen) && Merged(reports, out) && request.state.Some?
    ensures BestOver(request.state.value, States(request, SeenAnywhere(seen)), out.updatedState)
  {
    var states := seq(|seen|, i requires 0 <= i < |seen| => States(request, seen[i]));
    forall i | 0 <= i < |reports|
      ensures ReportBest(reports[i], states[i], request.state.value)
    {
      assert ReportedBy(parse, request, requests[i], reports[i], seen[i]);
      ReportsAlike(parse, request, requests[i], reports[i], seen[i]);
    }
    var all := States(request, SeenAnywhere(seen));
    forall s | s in all
      ensures exists i :: 0 <= i < |states| && s in states[i]
    {
      var e :| e in SeenAnywhere(seen) && IsNew(request, e) && e.kind == GitState && s == StampOf(e);
      var i :| 0 <= i < |seen| && e in seen[i];
      assert s in states[i];
    }
    MergedStateIsBest(reports, states, all, request.state.value, out);
  }

  lemma {:induction false} CoordinatesMerged(parse: Parser, request: FetchRequest, requests: seq<FetchRequest>,
      reports: seq<RelayResult>, seen: seq<set<Event>>, out: FetchReport)
    requires Reported(parse, request, requests, reports, seen) && Merged(reports, out)
    ensures out.coordinates == AllListed(parse, request, SeenAnywhere(seen)) - Requested(request)
  {
    forall c | c in AllListed(parse, request, SeenAnywhere(seen)) - Requested(request)
      ensures c in out.coordinates
    {
      var e :| e in SeenAnywhere(seen) && c in Listed(parse, request, e);
      var i :| 0 <= i < |seen| && e in seen[i];
      assert ReportedBy(parse, request, requests[i], reports[i], seen[i]);
      ReportsAlike(parse, request, requests[i], reports[i], seen[i]);
      MergedHas(reports, out, i);
    }
    forall c | c in out.coordinates
      ensures c in AllListed(parse, request, SeenAnywhere(seen)) - Requested(request)
    {
      var i :| 0 <= i < |reports| && reports[i].Ok? && c in reports[i].value.coordinates;
      assert ReportedBy(parse, request, requests[i], reports[i], seen[i]);
      ReportsAlike(parse, request, requests[i], reports[i], seen[i]);
      var e :| e in seen[i] && c in Listed(parse, request, e);
      assert e in SeenAnywhere(seen);
    }
  }

  lemma {:induction false} ProposalsMerged(parse: Parser, request: FetchRequest, requests: seq<FetchRequest>,
      reports: seq<RelayResult>, seen: seq<set<Event>>, out: FetchReport)
    requires Reported(parse, request, requests, reports, seen) && Merged(reports, out)
    ensures out.proposals == FreshRoots(request, SeenAnywhere(seen))
  {
    forall id | id in FreshRoots(request, SeenAnywhere(seen))
      ensures id in out.proposals
    {
      var e :| e in SeenAnywhere(seen) && IsFreshRoot(request, e) && e.id == id;
      var i :| 0 <= i < |seen| && e in seen[i];
      assert ReportedBy(parse, request, requests[i], reports[i], seen[i]);
      ReportsAlike(parse, request, requests[i], reports[i], seen[i]);
      MergedHas(reports, out, i);
    }
    forall id | id in out.proposals
      ensures id in FreshRoots(request, SeenAnywhere(seen))
    {
      var i :| 0 <= i < |reports| && reports[i].Ok? && id in reports[i].value.proposals;
      assert ReportedBy(parse, request, requests[i], reports[i], seen[i]);
      ReportsAlike(parse, request, requests[i], reports[i], seen[i]);
      var e :| e in seen[i] && IsFreshRoot(request, e) && e.id == id;
      assert e in SeenAnywhere(seen);
    }
  }

  lemma {:induction false} RepliesMerged(parse: Parser, request: FetchRequest, requests: seq<FetchRequest>,
      reports: seq<RelayResult>, seen: seq<set<Event>>, out: FetchReport)
    requires Reported(parse, request, requests, reports, seen) && Merged(reports, out)
    ensures RepliesReported(request, SeenAnywhere(seen), out)
  {
    forall e | e in SeenAnywhere(seen) && !AnyTagged(e, "e", out.proposals)
      ensures IsCommit(request, e) ==> e.id in out.commits
      ensures IsStatus(request, e) ==> e.id in out.statuses
    {
      var i :| 0 <= i < |seen| && e in seen[i];
      assert ReportedBy(parse, request, requests[i], reports[i], seen[i]);
      ReportsAlike(parse, request, requests[i], reports[i], seen[i]);
      MergedHas(reports, out, i);
      NotTaggedWithin(e, reports[i].value.proposals, out.proposals);
    }
    forall id | id in out.commits || id in out.statuses
      ensures id in out.commits ==> exists e :: e in SeenAnywhere(seen) && IsCommit(request, e) && e.id == id
      ensures id in out.statuses ==> exists e :: e in SeenAnywhere(seen) && IsStatus(request, e) && e.id == id
    {
      if id in out.commits {
        var i :| 0 <= i < |reports| && reports[i].Ok? && id in reports[i].value.commits;
        assert ReportedBy(parse, request, requests[i], reports[i], seen[i]);
        ReportsAlike(parse, request, requests[i], reports[i], seen[i]);
      }
      if id in out.statuses {
        var i :| 0 <= i < |reports| && reports[i].Ok? && id in reports[i].value.statuses;
        assert ReportedBy(parse, request, requests[i], reports[i], seen[i]);
        ReportsAlike(parse, request, requests[i], reports[i], seen[i]);
      }
    }
  }

  lemma {:induction false} NotTaggedWithin(e: Event, some: set<EventId>, more: set<EventId>)
    requires !AnyTagged(e, "e", more) && some <= more
    ensures !AnyTagged(e, "e", some)
  {}

  lemma {:induction false} UpdatesMerged(parse: Parser, request: FetchRequest, requests: seq<FetchRequest>,
      reports: seq<RelayResult>, seen: seq<set<Event>>, out: FetchReport)
    requires Reported(parse, request, requests, reports, seen) && Merged(reports, out)
    ensures LatestOf(AllUpdates(request, SeenAnywhere(seen)), out.updatedAnnouncements)
  {
    forall u | u in AllUpdates(request, SeenAnywhere(seen))
      ensures u in Union(reports, UpdatesOf)
    {
      var e :| e in SeenAnywhere(seen) && u in UpdateOf(request, e);
      var i :| 0 <= i < |seen| && e in seen[i];
      assert ReportedBy(parse, request, requests[i], reports[i], seen[i]);
      ReportsAlike(parse, request, requests[i], reports[i], seen[i]);
      MergedHas(reports, out, i);
    }
    forall u | u in Union(reports, UpdatesOf)
      ensures u in AllUpdates(request, SeenAnywhere(seen))
    {
      var i :| 0 <= i < |reports| && reports[i].Ok? && u in UpdatesOf(reports[i].value);
      assert ReportedBy(parse, request, requests[i], reports[i], seen[i]);
      ReportsAlike(parse, request, requests[i], reports[i], seen[i]);
      var e :| e in seen[i] && u in UpdateOf(request, e);
      assert e in SeenAnywhere(seen);
    }
    assert AllUpdates(request, SeenAnywhere(seen)) == Union(reports, UpdatesOf);
  }

  lemma {:induction false} NewProfilesMerged(parse: Parser, request: FetchRequest, requests: seq<FetchRequest>,
      reports: seq<RelayResult>, seen: seq<set<Event>>, out: FetchReport)
    requires Reported(parse, request, requests, reports, seen) && Merged(reports, out)
    ensures out.contributorProfiles == NewProfiles(requests, seen)
  {
    forall p | p in NewProfiles(requests, seen)
      ensures p in out.contributorProfiles
    {
      var i, e :| 0 <= i < |seen| && i < |requests| && e in seen[i] && p in NewProfileOf(requests[i], e);
      assert ReportedBy(parse, request, requests[i], reports[i], seen[i]);
      ReportsAlike(parse, request, requests[i], reports[i], seen[i]);
      MergedHas(reports, out, i);
    }
    forall p | p in out.contributorProfiles
      ensures p in NewProfiles(requests, seen)
    {
      var i :| 0 <= i < |reports| && reports[i].Ok? && p in reports[i].value.contributorProfiles;
      assert ReportedBy(parse, request, requests[i], reports[i], seen[i]);
      ReportsAlike(parse, request, requests[i], reports[i], seen[i]);
      var e :| e in seen[i] && p in NewProfileOf(requests[i], e);
    }
  }

  lemma {:induction false} UpdatedProfilesMerged(parse: Parser, request: FetchRequest, requests: seq<FetchRequest>,
      reports: seq<RelayResult>, seen: seq<set<Event>>, out: FetchReport)
    requires Reported(parse, request, requests, reports, seen) && Merged(reports, out)
    ensures out.profileUpdates == UpdatedProfiles(requests, seen)
  {
    forall p | p in UpdatedProfiles(requests, seen)
      ensures p in out.profileUpdates
    {
      var i, e :| 0 <= i < |seen| && i < |requests| && e in seen[i] && p in ProfileUpdateOf(requests[i], e);
      assert ReportedBy(parse, request, requests[i], reports[i], seen[i]);
      ReportsAlike(parse, request, requests[i], reports[i], seen[i]);
      MergedHas(reports, out, i);
    }
    forall p | p in out.profileUpdates
      ensures p in UpdatedProfiles(requests, seen)
    {
      var i :| 0 <= i < |reports| && reports[i].Ok? && p in reports[i].value.profileUpdates;
      assert ReportedBy(parse, request, requests[i], reports[i], seen[i]);
      ReportsAlike(parse, request, requests[i], reports[i], seen[i]);
      var e :| e in seen[i] && p in ProfileUpdateOf(requests[i], e);
    }
  }

  // ---------------------------------------------------------------- which relays are asked

  /** What the caches list at some time: the repository's relays, and those of the users whose profiles are wanted. */
  datatype Addresses = Addresses(repo: set<RelayUrl>, users: set<RelayUrl>)

  /** The relay that only passes events on. */
  predicate IsBlaster(r: RelayUrl) {
    Contains(r, "nostr.mutinywallet.com")
  }

  function ToAsk(a: Addresses): set<RelayUrl> {
    set r | r in a.repo + a.users && !IsBlaster(r)
  }

  /** A relay that is not the repository's is asked for profiles alone. */
  function RequestTo(request: FetchRequest, a: Addresses, r: RelayUrl): FetchRequest {
    if r in a.users && r !in a.repo then ForProfiles(request) else request
  }

  /** A relay's answers, in a fetch for its request, if it can be reached. */
  method AskRelay(parse: Parser, ghost request: FetchRequest, asked: FetchRequest, relay: Option<set<Event>>,
      honest: bool, ghost rank: map<EventId, nat>)
    returns (report: RelayResult, seen: set<Event>)
    requires asked == request || asked == ForProfiles(request)
    requires relay.Some? ==> Acyclic(relay.value, request.proposals, rank)
    ensures ReportedBy(parse, request, asked, report, seen)
    ensures report.Ok? <==> relay.Some?
    ensures report.Ok? ==> seen <= relay.value && (honest ==> FromHonest(parse, asked, relay.value, seen, report.value))
  {
    if relay.None? {
      return Err("relay pool error"), {};
    }
    ProfilesAsked(request, relay.value, rank);
    var fetched;
    fetched, seen := FetchAllFromRelay(parse, asked, relay.value, honest, rank);
    hide *;
    ReportedAsAsked(parse, request, asked, fetched, seen);
    return Ok(fetched), seen;
  }

  lemma {:induction false} ProfilesAsked(request: FetchRequest, relay: set<Event>, rank: map<EventId, nat>)
    ensures Requested(ForProfiles(request)) == {} && ForProfiles(request).proposals == {}
    ensures Acyclic(relay, request.proposals, rank) ==> Acyclic(relay, ForProfiles(request).proposals, rank)
  {}

  lemma {:induction false} ReportedAsAsked(parse: Parser, request: FetchRequest, asked: FetchRequest,
      report: FetchReport, seen: set<Event>)
    requires asked == request || asked == ForProfiles(request)
    requires ReportOf(parse, asked, seen, report) && RepliesReported(asked, seen, report)
    requires Requested(asked) == {} && asked.proposals == {} ==> forall e | e in seen :: e.kind in {Metadata, RelayList}
    ensures ReportedBy(parse, request, asked, Ok(report), seen)
  {
    ProfilesAsked(request, seen, map[]);
  }

  /** The relay was asked in some round so far, for what that round's lists say. */
  ghost predicate AskedBefore(request: FetchRequest, listing: nat -> Addresses, rounds: nat, r: RelayUrl,
      asked: FetchRequest)
  {
    exists k: nat :: k < rounds && r in ToAsk(listing(k)) && asked == RequestTo(request, listing(k), r)
  }

  /** Where the loop over relays stands: each relay asked once, with the request of its round. */
  ghost predicate Asking(parse: Parser, request: FetchRequest, listing: nat -> Addresses, rounds: nat,
      urls: seq<RelayUrl>, requests: seq<FetchRequest>, reports: seq<RelayResult>, seen: seq<set<Event>>)
  {
    && Reported(parse, request, requests, reports, seen)
    && |urls| == |requests| == |reports| == |seen| && Commits.NoDup(urls)
    && forall i | 0 <= i < |urls| :: AskedBefore(request, listing, rounds, urls[i], requests[i])
  }

  /** All relays that can be reached and are honest reported what such a relay comes to. */
  ghost predicate HonestReports(parse: Parser, relays: RelayUrl -> Option<set<Event>>, honest: RelayUrl -> bool,
      urls: seq<RelayUrl>, requests: seq<FetchRequest>, reports: seq<RelayResult>, seen: seq<set<Event>>)
  {
    |urls| == |requests| == |reports| == |seen| && forall i | 0 <= i < |urls| ::
      HonestReport(parse, relays(urls[i]), honest(urls[i]), requests[i], reports[i], seen[i])
  }

  ghost predicate HonestReport(parse: Parser, relay: Option<set<Event>>, honest: bool, asked: FetchRequest,
      report: RelayResult, seen: set<Event>)
  {
    && (report.Ok? <==> relay.Some?)
    && (report.Ok? ==> seen <= relay.value)
    && (report.Ok? && honest ==> FromHonest(parse, asked, relay.value, seen, report.value))
  }

  lemma {:induction false} OneMoreAsked(parse: Parser, request: FetchRequest, listing: nat -> Addresses, rounds: nat,
      urls: seq<RelayUrl>, requests: seq<FetchRequest>, reports: seq<RelayResult>, seen: seq<set<Event>>, r: RelayUrl,
      report: RelayResult, events: set<Event>)
    requires rounds > 0 && Asking(parse, request, listing, rounds, urls, requests, reports, seen) && r !in urls
    requires r in ToAsk(listing(rounds - 1))
    requires ReportedBy(parse, request, RequestTo(request, listing(rounds - 1), r), report, events)
    ensures Asking(parse, request, listing, rounds, urls + [r],
      requests + [RequestTo(request, listing(rounds - 1), r)], reports + [report], seen + [events])
  {
    hide ReportedBy, RequestTo, ToAsk;
    var asked := RequestTo(request, listing(rounds - 1), r);
    forall i | 0 <= i < |urls + [r]|
      ensures AskedBefore(request, listing, rounds, (urls + [r])[i], (requests + [asked])[i])
      ensures ReportedBy(parse, request, (requests + [asked])[i], (reports + [report])[i], (seen + [events])[i])
    {
      if i < |urls| {
        assert AskedBefore(request, listing, rounds, urls[i], requests[i]);
        assert ReportedBy(parse, request, requests[i], reports[i], seen[i]);
      }
    }
  }

  lemma {:induction false} NextRound(parse: Parser, request: FetchRequest, listing: nat -> Addresses, rounds: nat,
      urls: seq<RelayUrl>, requests: seq<FetchRequest>, reports: seq<RelayResult>, seen: seq<set<Event>>)
    requires Asking(parse, request, listing, rounds, urls, requests, reports, seen)
    ensures Asking(parse, request, listing, rounds + 1, urls, requests, reports, seen)
  {
    hide Reported, RequestTo, ToAsk;
    forall i | 0 <= i < |urls|
      ensures AskedBefore(request, listing, rounds + 1, urls[i], requests[i])
    {
      assert AskedBefore(request, listing, rounds, urls[i], requests[i]);
    }
  }

  /** One round of `fetch_all`: the relays listed that were not asked yet, in any order. */
  method AskRound(parse: Parser, request: FetchRequest, ghost listing: nat -> Addresses, ghost rounds: nat,
      addresses: Addresses, todo: set<RelayUrl>, relays: RelayUrl -> Option<set<Event>>, honest: RelayUrl -> bool,
      ghost ranks: RelayUrl -> map<EventId, nat>, urls: seq<RelayUrl>, ghost requests: seq<FetchRequest>,
      reports: seq<RelayResult>, ghost seen: seq<set<Event>>)
    returns (urls': seq<RelayUrl>, ghost requests': seq<FetchRequest>, reports': seq<RelayResult>,
      ghost seen': seq<set<Event>>)
    requires rounds > 0 && listing(rounds - 1) == addresses && todo <= ToAsk(addresses)
    requires forall r | r in todo :: r !in urls
    requires forall r | relays(r).Some? :: Acyclic(relays(r).value, request.proposals, ranks(r))
    requires Asking(parse, request, listing, rounds, urls, requests, reports, seen)
    requires HonestReports(parse, relays, honest, urls, requests, reports, seen)
    ensures Asking(parse, request, listing, rounds, urls', requests', reports', seen')
    ensures HonestReports(parse, relays, honest, urls', requests', reports', seen')
    ensures forall r :: r in urls' <==> r in urls || r in todo
  {
    hide *;
    urls', requests', reports', seen' := urls, requests, reports, seen;
    var left := todo;
    while left != {}
      invariant left <= todo && forall r :: r in urls' <==> r in urls || r in todo - left
      invariant Asking(parse, request, listing, rounds, urls', requests', reports', seen')
      invariant HonestReports(parse, relays, honest, urls', requests', reports', seen')
    {
      var r :| r in left;
      RequestIsOne(request, addresses, r);
      var asked := RequestTo(request, addresses, r);
      var report, events := AskRelay(parse, request, asked, relays(r), honest(r), ranks(r));
      OneMoreAsked(parse, request, listing, rounds, urls', requests', reports', seen', r, report, events);
      OneMoreHonest(parse, relays, honest, urls', requests', reports', seen', r, asked, report, events);
      urls', requests', reports', seen' := urls' + [r], requests' + [asked], reports' + [report], seen' + [events];
      left := left - {r};
    }
  }

  lemma {:induction false} RequestIsOne(request: FetchRequest, a: Addresses, r: RelayUrl)
    ensures RequestTo(request, a, r) == request || RequestTo(request, a, r) == ForProfiles(request)
  {}

  lemma {:induction false} OneMoreHonest(parse: Parser, relays: RelayUrl -> Option<set<Event>>,
      honest: RelayUrl -> bool, urls: seq<RelayUrl>, requests: seq<FetchRequest>, reports: seq<RelayResult>,
      seen: seq<set<Event>>, r: RelayUrl, asked: FetchRequest, report: RelayResult, events: set<Event>)
    requires HonestReports(parse, relays, honest, urls, requests, reports, seen)
    requires report.Ok? <==> relays(r).Some?
    requires report.Ok? ==> events <= relays(r).value
    requires report.Ok? && honest(r) ==> FromHonest(parse, asked, relays(r).value, events, report.value)
    ensures HonestReports(parse, relays, honest, urls + [r], requests + [asked], reports + [report], seen + [events])
  {
    hide FromHonest;
  }

  function Members(urls: seq<RelayUrl>): set<RelayUrl> {
    set r | r in urls
  }

  lemma {:induction false} FewerLeft(addresses: set<RelayUrl>, before: seq<RelayUrl>, after: seq<RelayUrl>,
      todo: set<RelayUrl>)
    requires todo != {} && todo <= addresses && forall r | r in todo :: r !in before
    requires forall r :: r in after <==> r in before || r in todo
    ensures addresses - Members(after) < addresses - Members(before)
  {
    var r :| r in todo;
    assert r in addresses - Members(before) && r !in addresses - Members(after);
  }

  lemma {:induction false} NothingAsked(parse: Parser, request: FetchRequest, listing: nat -> Addresses,
      relays: RelayUrl -> Option<set<Event>>, honest: RelayUrl -> bool)
    ensures Asking(parse, request, listing, 0, [], [], [], [])
    ensures HonestReports(parse, relays, honest, [], [], [], [])
  {}

  /** The loop of `fetch_all`. `listing(k)` is what the caches list when round `k` begins; it may change with every
      round, within finitely many addresses. It ends, asks no relay twice, and when it ends every relay listed
      then has been asked. */
  method FetchAll(parse: Parser, request: FetchRequest, listing: nat -> Addresses,
      relays: RelayUrl -> Option<set<Event>>, honest: RelayUrl -> bool, ghost addresses: set<RelayUrl>,
      ghost ranks: RelayUrl -> map<EventId, nat>)
    returns (reports: seq<RelayResult>, urls: seq<RelayUrl>, rounds: nat, ghost requests: seq<FetchRequest>,
      ghost seen: seq<set<Event>>)
    requires forall k :: ToAsk(listing(k)) <= addresses
    requires forall r | relays(r).Some? :: Acyclic(relays(r).value, request.proposals, ranks(r))
    ensures Asking(parse, request, listing, rounds, urls, requests, reports, seen)
    ensures HonestReports(parse, relays, honest, urls, requests, reports, seen)
    ensures forall k, r | 0 <= k <= rounds && r in ToAsk(listing(k)) :: r in urls
  {
    hide *;
    reports, urls, rounds, requests, seen := [], [], 0, [], [];
    NothingAsked(parse, request, listing, relays, honest);
    while true
      invariant Asking(parse, request, listing, rounds, urls, requests, reports, seen)
      invariant HonestReports(parse, relays, honest, urls, requests, reports, seen)
      invariant forall k, r | 0 <= k < rounds && r in ToAsk(listing(k)) :: r in urls
      decreases addresses - Members(urls)
    {
      var todo := set r | r in ToAsk(listing(rounds)) && r !in urls;
      if todo == {} {
        assert forall r | r in ToAsk(listing(rounds)) :: r in todo || r in urls;
        return;
      }
      ghost var before := urls;
      NextRound(parse, request, listing, rounds, urls, requests, reports, seen);
      urls, requests, reports, seen := AskRound(parse, request, listing, rounds + 1, listing(rounds), todo, relays,
        honest, ranks, urls, requests, reports, seen);
      FewerLeft(addresses, before, urls, todo);
      rounds := rounds + 1;
    }
  }

  /** At a round that listed it: for everything as the repository's relay, for profiles as a user's. */
  ghost predicate AskedOnce(request: FetchRequest, listing: nat -> Addresses, rounds: nat, r: RelayUrl,
      asked: FetchRequest)
  {
    exists k: nat :: k < rounds && (r in listing(k).repo || r in listing(k).users) && asked ==
      if r in listing(k).repo then request
      else request.(coordinates := [], proposals := {},
        missingContributorProfiles := request.missingContributorProfiles + request.profilesToFetch.Keys)
  }

  /** When the loop has ended, the relays asked are those that some round listed, but for the one that only passes
      events on; each was asked for everything if it was a relay of the repository at that round, and otherwise for
      profiles alone. */
  lemma {:induction false} AskedExactly(parse: Parser, request: FetchRequest, listing: nat -> Addresses, rounds: nat,
      urls: seq<RelayUrl>, requests: seq<FetchRequest>, reports: seq<RelayResult>, seen: seq<set<Event>>)
    requires Asking(parse, request, listing, rounds, urls, requests, reports, seen)
    requires forall k, r | 0 <= k <= rounds && r in ToAsk(listing(k)) :: r in urls
    ensures forall r :: r in urls <==> exists k: nat ::
      k <= rounds && (r in listing(k).repo || r in listing(k).users) && !Contains(r, "nostr.mutinywallet.com")
    ensures forall i | 0 <= i < |urls| :: AskedOnce(request, listing, rounds, urls[i], requests[i])
  {
    hide Reported, Contains;
    forall r | r in urls
      ensures exists k: nat ::
        k <= rounds && (r in listing(k).repo || r in listing(k).users) && !Contains(r, "nostr.mutinywallet.com")
    {
      var i :| 0 <= i < |urls| && urls[i] == r;
      assert AskedBefore(request, listing, rounds, urls[i], requests[i]);
    }
    forall i | 0 <= i < |urls|
      ensures AskedOnce(request, listing, rounds, urls[i], requests[i])
    {
      assert AskedBefore(request, listing, rounds, urls[i], requests[i]);
    }
    forall k: nat, r | k <= rounds && (r in listing(k).repo || r in listing(k).users) && !IsBlaster(r)
      ensures r in urls
    {
      assert r in ToAsk(listing(k));
    }
  }
}
