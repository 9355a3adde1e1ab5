/** What a fetch from an honest relay is shown and what it reports, told in terms of the events themselves. */
module Seen {
  import opened Wrappers
  import opened Events
  import opened Reports
  import opened Fetch
  import opened Discovery
  import opened Relays
  import opened Series
  import opened Commits
  import opened Patches
  import opened RoundTrip

  // ---------------------------------------------------------------- what is shown

  /** An honest relay's events about a known coordinate are all seen: patches and deletions under its address, states
      and announcements by its key under its identifier. */
  lemma {:induction false} AboutKnownSeen(parse: Parser, request: FetchRequest, relay: set<Event>, seen: set<Event>,
      report: FetchReport, c: Coordinate, e: Event)
    requires FromHonest(parse, request, relay, seen, report) && e in relay
    requires c in Requested(request) || c in report.coordinates
    ensures e.kind in {GitPatch, EventDeletion} && Tagged(e.tags, "a", "30617:" + c.pubkey + ":" + c.identifier) ==>
      e in seen
    ensures e.kind in {GitState, GitRepoAnnouncement} && e.pubkey == c.pubkey && Tagged(e.tags, "d", c.identifier) ==>
      e in seen
  {
    hide Tagged, OutcomeAt, CrossClosed, ReportOf;
    assert c.identifier in StateFilter({c}).identifiers.value && c.identifier in RepoFilter({c}).identifiers.value;
    assert Address(c) in PatchFilter({c}).addresses.value;
    if e.kind in {GitPatch, EventDeletion} && Tagged(e.tags, "a", "30617:" + c.pubkey + ":" + c.identifier) {
      assert AsksFor(c, e);
    }
    if e.kind in {GitState, GitRepoAnnouncement} && e.pubkey == c.pubkey && Tagged(e.tags, "d", c.identifier) {
      assert AsksFor(c, e);
    }
  }

  /** So are the patches, deletions and statuses that mention a proposal known or reported. */
  lemma {:induction false} UnderProposalSeen(parse: Parser, request: FetchRequest, relay: set<Event>, seen: set<Event>,
      report: FetchReport, proposal: EventId, e: Event)
    requires FromHonest(parse, request, relay, seen, report) && e in relay
    requires proposal in request.proposals + report.proposals
    requires e.kind in {GitPatch, EventDeletion, GitStatus} && Tagged(e.tags, "e", proposal)
    ensures e in seen
  {
    hide Tagged, OutcomeAt, CrossClosed, ReportOf;
    assert Matches(ThreadFilter({proposal}), e);
  }

  /** And the profiles and relay lists of the keys asked for, of maintainers found, and of the authors of proposals
      found, where these are no contributors yet. */
  lemma {:induction false} ProfilesSeen(parse: Parser, request: FetchRequest, relay: set<Event>, seen: set<Event>,
      report: FetchReport, e: Event)
    requires FromHonest(parse, request, relay, seen, report) && e in relay && e.kind in {Metadata, RelayList}
    requires
      || e.pubkey in request.missingContributorProfiles || e.pubkey in request.profilesToFetch
      || (e.pubkey !in request.contributors && exists c :: c in report.coordinates && c.pubkey == e.pubkey)
      || (e.pubkey !in request.contributors && exists p ::
            p in seen && p.id !in request.existingEvents && p.kind == GitPatch && Says(p.tags, "root")
            && p.pubkey == e.pubkey)
    ensures e in seen
  {
    hide Tagged, OutcomeAt, CrossClosed, ReportOf, Says;
    assert e.pubkey in Wanted(request, report, seen);
    assert Matches(ProfileFilter({e.pubkey}), e);
  }

  // ---------------------------------------------------------------- what is reported

  /** The proposals reported are the new patches that say they are roots. */
  lemma {:induction false} ProposalsMean(parse: Parser, request: FetchRequest, seen: set<Event>, report: FetchReport)
    requires ReportOf(parse, request, seen, report)
    ensures forall id :: id in report.proposals <==> exists e ::
      e in seen && e.id == id && id !in request.existingEvents && e.kind == GitPatch && Says(e.tags, "root")
  {
    hide Noted, StateIsBest, Says;
  }

  ghost predicate Lists(parse: Parser, e: Event, c: Coordinate) {
    && e.kind == GitRepoAnnouncement && parse(e).Some?
    && c.identifier == parse(e).value.identifier && c.pubkey in parse(e).value.maintainers
  }

  /** The coordinates reported are those that new announcements list and the request does not. */
  lemma {:induction false} CoordinatesMean(parse: Parser, request: FetchRequest, seen: set<Event>, report: FetchReport,
      c: Coordinate)
    requires ReportOf(parse, request, seen, report)
    ensures c in report.coordinates <==>
      && (forall i | 0 <= i < |request.coordinates| :: request.coordinates[i].0 != c)
      && exists e ::
           e in seen && e.id !in request.existingEvents && e.kind == GitRepoAnnouncement && parse(e).Some?
           && c.identifier == parse(e).value.identifier && c.pubkey in parse(e).value.maintainers
  {
    hide Noted, StateIsBest, FreshRoots;
    if c in AllListed(parse, request, seen) {
      var e :| e in seen && c in Listed(parse, request, e);
    }
    if e :| e in seen && IsNew(request, e) && Lists(parse, e, c) {
      assert c == Coordinate(c.pubkey, c.identifier) && c in Listed(parse, request, e);
    }
  }

  /** The profiles reported as new were missing. */
  lemma {:induction false} NewProfilesMean(parse: Parser, request: FetchRequest, seen: set<Event>, report: FetchReport,
      k: PublicKey)
    requires ReportOf(parse, request, seen, report)
    ensures k in report.contributorProfiles <==>
      k in request.missingContributorProfiles && exists e ::
        e in seen && e.id !in request.existingEvents && e.kind in {Metadata, RelayList} && e.pubkey == k
  {
    hide AllListed, FreshRoots, StateIsBest;
    if k in report.contributorProfiles {
      var e :| e in seen && k in NewProfileOf(request, e);
    }
    if e :| e in seen && IsNew(request, e) && e.kind in {Metadata, RelayList} && e.pubkey == k {
      assert k in NewProfileOf(request, e) <==> k in request.missingContributorProfiles;
    }
  }

  /** Those reported as updated were not, and are newer than what is known: metadata than the first time known, relay
      lists than the second. */
  lemma {:induction false} UpdatedProfilesMean(parse: Parser, request: FetchRequest, seen: set<Event>,
      report: FetchReport, k: PublicKey)
    requires ReportOf(parse, request, seen, report)
    ensures k in report.profileUpdates <==>
      k !in request.missingContributorProfiles && k in request.profilesToFetch && exists e ::
        e in seen && e.id !in request.existingEvents && e.pubkey == k
        && ((e.kind == Metadata && e.createdAt > request.profilesToFetch[k].0)
          || (e.kind == RelayList && e.createdAt > request.profilesToFetch[k].1))
  {
    hide AllListed, FreshRoots, StateIsBest;
    if k in report.profileUpdates {
      var e :| e in seen && k in ProfileUpdateOf(request, e);
    }
    if e :| e in seen && IsNew(request, e) && IsProfileUpdate(request, e) && e.pubkey == k {
      assert k in ProfileUpdateOf(request, e);
    }
  }

  /** A new announcement of the coordinate. */
  ghost predicate Announces(request: FetchRequest, c: Coordinate, e: Event) {
    && e.id !in request.existingEvents && e.kind == GitRepoAnnouncement
    && e.pubkey == c.pubkey && TagValue(e.tags, "d") == Some(c.identifier)
  }

  /** A coordinate requested once, with the time of its announcement if one is cached, is reported as updated if and
      only if the newest announcement seen is newer than that; its time is the latest one reported. */
  lemma {:induction false} AnnouncementReported(parse: Parser, request: FetchRequest, seen: set<Event>,
      report: FetchReport, i: nat, e: Event)
    requires ReportOf(parse, request, seen, report) && i < |request.coordinates|
    requires forall j | 0 <= j < |request.coordinates| && j != i ::
      request.coordinates[j].0 != request.coordinates[i].0
    requires e in seen && Announces(request, request.coordinates[i].0, e)
    requires forall other | other in seen && Announces(request, request.coordinates[i].0, other) ::
      other.createdAt <= e.createdAt
    ensures var c, cached := request.coordinates[i].0, request.coordinates[i].1;
      && ((exists t :: (c, t) in report.updatedAnnouncements) <==> cached.None? || e.createdAt > cached.value)
      && ((c, e.createdAt) in report.updatedAnnouncements <==> cached.None? || e.createdAt > cached.value)
      && forall t | (c, t) in report.updatedAnnouncements :: t <= e.createdAt
  {
    hide AllListed, FreshRoots, StateIsBest;
    var c, cached := request.coordinates[i].0, request.coordinates[i].1;
    assert c == Coordinate(c.pubkey, c.identifier);
    forall t | (c, t) in Elements(report.updatedAnnouncements)
      ensures t <= e.createdAt && (cached.None? || e.createdAt > cached.value)
    {
      var other :| other in seen && (c, t) in UpdateOf(request, other);
      assert Announces(request, c, other);
    }
    if cached.None? || e.createdAt > cached.value {
      assert IsUpdate(request, e) && (c, e.createdAt) in UpdateOf(request, e);
      assert (c, e.createdAt) in Elements(report.updatedAnnouncements);
    }
  }

  /** With a state cached, the newest new state seen is reported if and only if it is later than the cached one, or as
      late with the greater id. */
  lemma {:induction false} StateReported(parse: Parser, request: FetchRequest, seen: set<Event>, report: FetchReport,
      e: Event)
    requires ReportOf(parse, request, seen, report) && request.state.Some?
    requires e in seen && e.id !in request.existingEvents && e.kind == GitState
    requires forall other | other in seen && other.id !in request.existingEvents && other.kind == GitState ::
      other.createdAt < e.createdAt || (other.createdAt == e.createdAt && !IdLess(e.id, other.id))
    ensures var cached := request.state.value;
      report.updatedState ==
        if e.createdAt > cached.createdAt || (e.createdAt == cached.createdAt && IdLess(cached.id, e.id))
        then Some(Stamp(e.createdAt, e.id)) else None
  {
    hide AllListed, FreshRoots, Noted, IdLess;
    var s := Stamp(e.createdAt, e.id);
    assert s in States(request, seen);
    forall t | t in States(request, seen)
      ensures !Newer(t, s)
    {}
    if report.updatedState.Some? {
      NewerIsOrder(report.updatedState.value, s, s);
      NewerIsOrder(s, report.updatedState.value, request.state.value);
    }
  }

  /** The commits and statuses reported are new patches that are no roots, and new statuses, that were seen; and all of
      these that mention no proposal reported. */
  lemma {:induction false} RepliesMean(request: FetchRequest, seen: set<Event>, report: FetchReport, id: EventId)
    requires RepliesReported(request, seen, report)
    ensures id in report.commits ==> exists e ::
      e in seen && e.id == id && id !in request.existingEvents && e.kind == GitPatch && !Says(e.tags, "root")
    ensures id in report.statuses ==> exists e ::
      e in seen && e.id == id && id !in request.existingEvents && e.kind == GitStatus
    ensures forall e | e in seen && e.id !in request.existingEvents
                       && (forall p | p in report.proposals :: !Tagged(e.tags, "e", p)) ::
      && (e.kind == GitPatch && !Says(e.tags, "root") ==> e.id in report.commits)
      && (e.kind == GitStatus ==> e.id in report.statuses)
  {
    hide Says, Tagged;
    if id in report.commits {
      var e :| e in seen && IsCommit(request, e) && e.id == id;
    }
    if id in report.statuses {
      var e :| e in seen && IsStatus(request, e) && e.id == id;
    }
  }

  // ---------------------------------------------------------------- all relays together

  /** Over all relays the merged report is what one relay that showed everything would have been reported for, but
      for the profiles and for keeping of several updates of an announcement the latest. */
  lemma {:induction false} AsOneRelay(parse: Parser, request: FetchRequest, requests: seq<FetchRequest>,
      reports: seq<RelayResult>, seen: seq<set<Event>>, out: FetchReport)
    returns (one: FetchReport)
    requires Reported(parse, request, requests, reports, seen) && Merged(reports, out)
    ensures ReportOf(parse, request, SeenAnywhere(seen), one)
    ensures out.coordinates == one.coordinates && out.proposals == one.proposals
    ensures request.state.Some? ==> out.updatedState == one.updatedState
    ensures LatestOf(Elements(one.updatedAnnouncements), out.updatedAnnouncements)
  {
    AllRelaysMerged(parse, request, requests, reports, seen, out);
    hide Merged, Reported, LatestOf, RepliesReported;
    var all := SeenAnywhere(seen);
    var updates := Listable(AllUpdates(request, all));
    one := FetchReport(out.coordinates, updates, if request.state.Some? then out.updatedState else None, out.proposals,
      {}, {}, set e, p | e in all && p in NewProfileOf(request, e) :: p,
      set e, p | e in all && p in ProfileUpdateOf(request, e) :: p);
  }

  /** The newest announcement that any relay showed is the one reported, if and only if it is newer than the cached. */
  lemma {:induction false} MergedAnnouncement(parse: Parser, request: FetchRequest, requests: seq<FetchRequest>,
      reports: seq<RelayResult>, seen: seq<set<Event>>, out: FetchReport, i: nat, e: Event)
    requires Reported(parse, request, requests, reports, seen) && Merged(reports, out) && i < |request.coordinates|
    requires forall j | 0 <= j < |request.coordinates| && j != i ::
      request.coordinates[j].0 != request.coordinates[i].0
    requires e in SeenAnywhere(seen) && Announces(request, request.coordinates[i].0, e)
    requires forall other | other in SeenAnywhere(seen) && Announces(request, request.coordinates[i].0, other) ::
      other.createdAt <= e.createdAt
    ensures var c, cached := request.coordinates[i].0, request.coordinates[i].1;
      forall t :: (c, t) in out.updatedAnnouncements <==>
        t == e.createdAt && (cached.None? || e.createdAt > cached.value)
  {
    hide Merged, Reported, ReportOf, Announces;
    var one := AsOneRelay(parse, request, requests, reports, seen, out);
    AnnouncementReported(parse, request, SeenAnywhere(seen), one, i, e);
    var c := request.coordinates[i].0;
    if (c, e.createdAt) in one.updatedAnnouncements {
      var k := Covered(Elements(one.updatedAnnouncements), out.updatedAnnouncements, (c, e.createdAt));
      assert out.updatedAnnouncements[k] == (c, out.updatedAnnouncements[k].1);
    }
  }

  // ---------------------------------------------------------------- a series sent to a relay

  lemma {:induction false} SeriesOfPatches(ctx: Context, cover: Option<(string, string)>, commits: seq<CommitInfo>,
      stamps: seq<Stamp>, events: seq<Event>, i: nat)
    requires IsSeries(ctx, cover, commits, stamps, events) && i < |events|
    ensures events[i].kind == GitPatch
  {
    if i > 0 || cover.None? {
      var first := if cover.Some? then 1 else 0;
      SeriesPatch(ctx, cover, commits, stamps, events, i - first);
    }
  }

  /** Whoever fetches a repository from an honest relay that holds a series for it sees the whole series, and is told
      of the proposal if it is new. */
  lemma {:induction false} SeriesFetched(parse: Parser, request: FetchRequest, relay: set<Event>, seen: set<Event>,
      report: FetchReport, ctx: Context, cover: Option<(string, string)>, commits: seq<CommitInfo>, stamps: seq<Stamp>,
      events: seq<Event>, maintainer: PublicKey)
    requires FromHonest(parse, request, relay, seen, report)
    requires IsSeries(ctx, cover, commits, stamps, events) && forall e | e in events :: e in relay
    requires maintainer in ctx.repo.maintainers
    requires Coordinate(maintainer, ctx.repo.identifier) in Requested(request) + report.coordinates
    ensures forall e | e in events :: e in seen
    ensures events != [] && events[0].id !in request.existingEvents ==> events[0].id in report.proposals
  {
    hide *;
    forall i | 0 <= i < |events|
      ensures events[i] in seen
    {
      SeriesOfPatches(ctx, cover, commits, stamps, events, i);
      SeriesAddressed(ctx, cover, commits, stamps, events, i);
      AddressHeld(ctx, events[i], if i == 0 then ctx.mentions else [], maintainer);
      AboutKnownSeen(parse, request, relay, seen, report, Coordinate(maintainer, ctx.repo.identifier), events[i]);
    }
    if events != [] {
      FirstIsRoot(ctx, cover, commits, stamps, events);
      ReportHolds(parse, request, relay, seen, report);
      ProposalsMean(parse, request, seen, report);
    }
  }

  lemma {:induction false} ReportHolds(parse: Parser, request: FetchRequest, relay: set<Event>, seen: set<Event>,
      report: FetchReport)
    requires FromHonest(parse, request, relay, seen, report)
    ensures ReportOf(parse, request, seen, report)
  {}

  lemma {:induction false} AddressHeld(ctx: Context, e: Event, mentions: seq<Tag>, maintainer: PublicKey)
    requires IsAddressed(ctx, e, mentions) && maintainer in ctx.repo.maintainers
    ensures Tagged(e.tags, "a", "30617:" + maintainer + ":" + ctx.repo.identifier)
  {}

  /** From one contributor's commits to another's checkout: a series that an honest relay holds is fetched, and what is
      then recovered from a cache that has what was fetched is the series exactly if its words are clean. */
  lemma {:induction false} FetchedSeriesRecovered(parse: Parser, request: FetchRequest, relay: set<Event>,
      seen: set<Event>, report: FetchReport, ctx: Context, cover: Option<(string, string)>, commits: seq<CommitInfo>,
      stamps: seq<Stamp>, events: seq<Event>, maintainer: PublicKey, cache: set<Event>, permissioned: set<PublicKey>,
      selected: seq<Event>, chain: seq<Event>)
    requires FromHonest(parse, request, relay, seen, report) && seen <= cache
    requires Setting(ctx, cover, commits, stamps, events) && forall e | e in events :: e in relay
    requires maintainer in ctx.repo.maintainers
    requires Coordinate(maintainer, ctx.repo.identifier) in Requested(request) + report.coordinates
    requires forall i, j | 0 <= i < j < |stamps| :: stamps[i].createdAt <= stamps[j].createdAt
    requires forall e, f | e in cache && f in cache && e.id == f.id :: e == f
    requires ctx.signer in permissioned
    requires forall e | Selects(cache, permissioned, ProposalOf(ctx, stamps), e) && e !in events ::
      e.createdAt < stamps[|stamps| - 1].createdAt
    requires forall e :: e in selected <==> Selects(cache, permissioned, ProposalOf(ctx, stamps), e)
    requires Ancestry(selected, chain)
    ensures chain == Reversed(PatchesOf(cover, events)) <==> CleanWords(ctx, cover, commits)
  {
    hide FromHonest, Known, Selects, Ancestry, CleanWords, Reversed;
    SeriesFetched(parse, request, relay, seen, report, ctx, cover, commits, stamps, events, maintainer);
    SeriesRoundTrip(ctx, cover, commits, stamps, events, cache, permissioned, ProposalOf(ctx, stamps), selected, chain);
  }
}
