/** Fetching from one relay: rounds of queries until nothing new turns up. */
module Fetch {
  import opened Wrappers
  import opened Events
  import opened Reports

  /** What an announcement event says, once parsed: its identifier and the maintainers it lists. */
  datatype Listing = Listing(identifier: string, maintainers: seq<PublicKey>)

  type Parser = Event -> Option<Listing>

  datatype FetchRequest = FetchRequest(coordinates: seq<(Coordinate, Option<nat>)>,
                                       state: Option<Stamp>,
                                       proposals: set<EventId>,
                                       contributors: set<PublicKey>,
                                       missingContributorProfiles: set<PublicKey>,
                                       existingEvents: set<EventId>,
                                       profilesToFetch: map<PublicKey, (nat, nat)>)

  function Requested(request: FetchRequest): set<Coordinate> {
    set i | 0 <= i < |request.coordinates| :: request.coordinates[i].0
  }

  // ---------------------------------------------------------------- filters

  datatype Filter = Filter(kinds: set<Kind>, authors: Option<set<PublicKey>>, identifiers: Option<set<string>>,
                           addresses: Option<set<string>>, events: Option<set<EventId>>)

  predicate AnyTagged(e: Event, name: string, values: set<string>) {
    exists v :: v in values && Tagged(e.tags, name, v)
  }

  predicate Matches(f: Filter, e: Event) {
    && e.kind in f.kinds
    && (f.authors.Some? ==> e.pubkey in f.authors.value)
    && (f.identifiers.Some? ==> AnyTagged(e, "d", f.identifiers.value))
    && (f.addresses.Some? ==> AnyTagged(e, "a", f.addresses.value))
    && (f.events.Some? ==> AnyTagged(e, "e", f.events.value))
  }

  function Address(c: Coordinate): string {
    "30617:" + c.pubkey + ":" + c.identifier
  }

  function StateFilter(coordinates: set<Coordinate>): Filter {
    Filter({GitState}, Some(set c | c in coordinates :: c.pubkey), Some(set c | c in coordinates :: c.identifier), None,
      None)
  }

  function RepoFilter(coordinates: set<Coordinate>): Filter {
    Filter({GitRepoAnnouncement}, Some(set c | c in coordinates :: c.pubkey),
      Some(set c | c in coordinates :: c.identifier), None, None)
  }

  function PatchFilter(coordinates: set<Coordinate>): Filter {
    Filter({GitPatch, EventDeletion}, None, None, Some(set c | c in coordinates :: Address(c)), None)
  }

  function ThreadFilter(roots: set<EventId>): Filter {
    Filter({GitPatch, EventDeletion, GitStatus}, None, None, None, Some(roots))
  }

  function ProfileFilter(profiles: set<PublicKey>): Filter {
    Filter({Metadata, RelayList}, Some(profiles), None, None, None)
  }

  /** `get_fetch_filters` */
  function GetFetchFilters(coordinates: set<Coordinate>, roots: set<EventId>, profiles: set<PublicKey>): set<Filter> {
    (if coordinates == {} then {} else {StateFilter(coordinates), RepoFilter(coordinates), PatchFilter(coordinates)})
    + (if roots == {} then {} else {ThreadFilter(roots)})
    + (if profiles == {} then {} else {ProfileFilter(profiles)})
  }

  predicate MatchesAny(filters: set<Filter>, e: Event) {
    exists f :: f in filters && Matches(f, e)
  }

  /** Only the coordinates' own filter asks for announcements, and only by author and identifier. */
  lemma {:induction false} AnnouncementsAsked(coordinates: set<Coordinate>, roots: set<EventId>,
      profiles: set<PublicKey>, e: Event)
    requires e.kind == GitRepoAnnouncement
    ensures MatchesAny(GetFetchFilters(coordinates, roots, profiles), e) <==>
      exists a, b :: a in coordinates && b in coordinates && a.pubkey == e.pubkey && Tagged(e.tags, "d", b.identifier)
  {
    if a, b :| a in coordinates && b in coordinates && a.pubkey == e.pubkey && Tagged(e.tags, "d", b.identifier) {
      assert b.identifier in RepoFilter(coordinates).identifiers.value;
      assert Matches(RepoFilter(coordinates), e);
      assert RepoFilter(coordinates) in GetFetchFilters(coordinates, roots, profiles);
    }
  }

  /** Without fresh coordinates, a patch is only asked for as a reply to one of the fresh roots. */
  lemma {:induction false} PatchesAskedByThread(roots: set<EventId>, profiles: set<PublicKey>, e: Event)
    requires e.kind == GitPatch && MatchesAny(GetFetchFilters({}, roots, profiles), e)
    ensures exists id :: id in roots && Mentions(e, id)
  {}

  ghost predicate IsAnnouncementOf(e: Event, c: Coordinate) {
    e.kind == GitRepoAnnouncement && e.pubkey == c.pubkey && Tagged(e.tags, "d", c.identifier)
  }

  predicate IsProduct(coordinates: set<Coordinate>) {
    forall a, b | a in coordinates && b in coordinates :: Coordinate(a.pubkey, b.identifier) in coordinates
  }

  /** The filter matches exactly the announcements of its coordinates if and only if these are all
      combinations of their keys and identifiers, as when they share one identifier. */
  lemma {:induction false} RepoFilterExact(coordinates: set<Coordinate>)
    ensures (forall e: Event | Matches(RepoFilter(coordinates), e) :: exists c ::
      c in coordinates && IsAnnouncementOf(e, c))
       <==> IsProduct(coordinates)
  {
    if IsProduct(coordinates) {
      forall e: Event | Matches(RepoFilter(coordinates), e)
        ensures exists c :: c in coordinates && IsAnnouncementOf(e, c)
      {
        var a :| a in coordinates && a.pubkey == e.pubkey;
        var b :| b in coordinates && Tagged(e.tags, "d", b.identifier);
        assert Coordinate(a.pubkey, b.identifier) in coordinates &&
          IsAnnouncementOf(e, Coordinate(a.pubkey, b.identifier));
      }
    } else {
      var a, b :| a in coordinates && b in coordinates && Coordinate(a.pubkey, b.identifier) !in coordinates;
      var e := Event("", a.pubkey, 0, GitRepoAnnouncement, [["d", b.identifier]], "");
      TaggedAt(e.tags, "d", b.identifier, 0);
      assert b.identifier in RepoFilter(coordinates).identifiers.value;
      assert Matches(RepoFilter(coordinates), e);
      forall c | c in coordinates
        ensures !IsAnnouncementOf(e, c)
      {
        assert e.tags[1..] == [] && !Tagged([], "d", c.identifier);
        assert c == Coordinate(c.pubkey, c.identifier);
      }
    }
  }

  // ---------------------------------------------------------------- processing events

  predicate IsNew(request: FetchRequest, e: Event) {
    e.id !in request.existingEvents
  }

  /** The coordinates that a new announcement lists. */
  function Listed(parse: Parser, request: FetchRequest, e: Event): set<Coordinate> {
    if IsNew(request, e) && e.kind == GitRepoAnnouncement && parse(e).Some? then
      ListedBy(parse(e).value.maintainers, parse(e).value.identifier)
    else {}
  }

  predicate IsFreshRoot(request: FetchRequest, e: Event) {
    IsNew(request, e) && IsPatchSetRoot(e)
  }

  /** State of one call: the report so far and what turned up fresh. */
  datatype Progress = Progress(report: FetchReport, coordinates: set<Coordinate>, roots: set<EventId>,
    profiles: set<PublicKey>)

  function Profiles(request: FetchRequest, added: set<Coordinate>): set<PublicKey> {
    set c | c in added && c.pubkey !in request.contributors && c.pubkey !in request.profilesToFetch :: c.pubkey
  }

  function NextState(base: Option<Stamp>, best: Option<Stamp>, s: Stamp): Option<Stamp> {
    var existing := if best.Some? then best else base;
    if existing.Some? && Newer(s, existing.value) then Some(s) else best
  }

  function StampOf(e: Event): Stamp {
    Stamp(e.createdAt, e.id)
  }

  function ListedBy(maintainers: seq<PublicKey>, identifier: string): set<Coordinate> {
    set m | m in maintainers :: Coordinate(m, identifier)
  }

  lemma {:induction false} ListedBySnoc(maintainers: seq<PublicKey>, identifier: string, m: PublicKey)
    ensures ListedBy(maintainers + [m], identifier) == ListedBy(maintainers, identifier) + {Coordinate(m, identifier)}
  {}

  /** The progress once `added`, unknown before, has turned up as well. */
  function Adding(request: FetchRequest, p: Progress, added: set<Coordinate>): Progress {
    p.(report := p.report.(coordinates := p.report.coordinates + added),
       coordinates := p.coordinates + added,
       profiles := p.profiles + Profiles(request, added))
  }

  method AddListed(request: FetchRequest, listing: Listing, p: Progress) returns (p': Progress)
    ensures p' == Adding(request, p,
      ListedBy(listing.maintainers, listing.identifier) - (Requested(request) + p.report.coordinates))
  {
    p' := p;
    ghost var known := Requested(request) + p.report.coordinates;
    ghost var added: set<Coordinate> := {};
    for i := 0 to |listing.maintainers|
      invariant added == ListedBy(listing.maintainers[..i], listing.identifier) - known
      invariant p' == Adding(request, p, added)
    {
      var m := listing.maintainers[i];
      var c := Coordinate(m, listing.identifier);
      assert listing.maintainers[..i + 1] == listing.maintainers[..i] + [m];
      ListedBySnoc(listing.maintainers[..i], listing.identifier, m);
      if c !in Requested(request) && c !in p'.report.coordinates {
        p' := p'.(report := p'.report.(coordinates := p'.report.coordinates + {c}),
          coordinates := p'.coordinates + {c});
        if m !in request.contributors && m !in request.profilesToFetch && m !in p'.profiles {
          p' := p'.(profiles := p'.profiles + {m});
        }
        ProfilesSnoc(request, added, c);
        added := added + {c};
      }
    }
    assert listing.maintainers[..|listing.maintainers|] == listing.maintainers;
  }

  lemma {:induction false} ProfilesSnoc(request: FetchRequest, added: set<Coordinate>, c: Coordinate)
    ensures Profiles(request, added + {c})
         == Profiles(request, added) +
           (if c.pubkey !in request.contributors && c.pubkey !in request.profilesToFetch then {c.pubkey} else {})
  {}

  /** What a new event adds to the fresh sets and to what they are taken from, apart from the rest of the report. */
  ghost predicate Extends(parse: Parser, request: FetchRequest, e: Event, p: Progress, p': Progress) {
    var added := Listed(parse, request, e) - (Requested(request) + p.report.coordinates);
    var root := if IsFreshRoot(request, e) then {e.id} else {};
    var author := if IsFreshRoot(request, e) && e.pubkey !in request.contributors then {e.pubkey} else {};
    && p'.coordinates == p.coordinates + added && p'.report.coordinates == p.report.coordinates + added
    && p'.roots == p.roots + root && p'.report.proposals == p.report.proposals + root
    && p'.profiles == p.profiles + Profiles(request, added) + author
    && p'.report.updatedState ==
         (if IsNew(request, e) && e.kind == GitState then NextState(request.state, p.report.updatedState, StampOf(e))
           else p.report.updatedState)
    && p'.report.commits == p.report.commits && p'.report.statuses == p.report.statuses
  }

  function IdentifierOf(e: Event): Option<string> {
    TagValue(e.tags, "d")
  }

  /** A known announcement is reported again when it is newer than the one known. */
  predicate IsUpdate(request: FetchRequest, e: Event) {
    exists i :: 0 <= i < |request.coordinates| && Some(request.coordinates[i].0.identifier) == IdentifierOf(e)
                && request.coordinates[i].0.pubkey == e.pubkey
                && (request.coordinates[i].1.Some? ==> e.createdAt > request.coordinates[i].1.value)
  }

  predicate IsProfileUpdate(request: FetchRequest, e: Event) {
    && e.pubkey !in request.missingContributorProfiles && e.pubkey in request.profilesToFetch
    && ((e.kind == Metadata && e.createdAt > request.profilesToFetch[e.pubkey].0)
        || (e.kind == RelayList && e.createdAt > request.profilesToFetch[e.pubkey].1))
  }

  function UpdateOf(request: FetchRequest, e: Event): set<Update> {
    if IsNew(request, e) && e.kind == GitRepoAnnouncement &&
      IsUpdate(request, e) then {(Coordinate(e.pubkey, IdentifierOf(e).value), e.createdAt)} else {}
  }

  function NewProfileOf(request: FetchRequest, e: Event): set<PublicKey> {
    if IsNew(request, e) && e.kind in {RelayList, Metadata} &&
      e.pubkey in request.missingContributorProfiles then {e.pubkey} else {}
  }

  function ProfileUpdateOf(request: FetchRequest, e: Event): set<PublicKey> {
    if IsNew(request, e) && IsProfileUpdate(request, e) then {e.pubkey} else {}
  }

  /** What an event adds to the announcement and profile updates. */
  ghost predicate Notes(request: FetchRequest, e: Event, report: FetchReport, report': FetchReport) {
    && Elements(report'.updatedAnnouncements) == Elements(report.updatedAnnouncements) + UpdateOf(request, e)
    && report'.contributorProfiles == report.contributorProfiles + NewProfileOf(request, e)
    && report'.profileUpdates == report.profileUpdates + ProfileUpdateOf(request, e)
  }

  /** One turn of the first loop of `process_fetched_events`. */
  method ProcessEvent(parse: Parser, request: FetchRequest, event: Event, p: Progress) returns (p': Progress)
    ensures Extends(parse, request, event, p, p') && Notes(request, event, p.report, p'.report)
  {
    p' := p;
    if !IsNew(request, event) {
      return;
    }
    if event.kind == GitRepoAnnouncement {
      if IsUpdate(request, event) {
        p' := p'.(report := p'.report.(updatedAnnouncements :=
          p'.report.updatedAnnouncements + [(Coordinate(event.pubkey, IdentifierOf(event).value), event.createdAt)]));
      }
      var listing := parse(event);
      if listing.Some? {
        p' := AddListed(request, listing.value, p');
      }
    } else if event.kind == GitState {
      p' := p'.(report := p'.report.(updatedState := NextState(request.state, p'.report.updatedState, StampOf(event))));
    } else if IsPatchSetRoot(event) {
      p' := p'.(roots := p'.roots + {event.id}, report := p'.report.(proposals := p'.report.proposals + {event.id}));
      if event.pubkey !in request.contributors && event.pubkey !in p'.profiles {
        p' := p'.(profiles := p'.profiles + {event.pubkey});
      }
    } else if event.kind in {RelayList, Metadata} {
      if event.pubkey in request.missingContributorProfiles {
        p' := p'.(report := p'.report.(contributorProfiles := p'.report.contributorProfiles + {event.pubkey}));
      } else if IsProfileUpdate(request, event) {
        p' := p'.(report := p'.report.(profileUpdates := p'.report.profileUpdates + {event.pubkey}));
      }
    }
  }

  // ---------------------------------------------------------------- a whole batch

  function AllListed(parse: Parser, request: FetchRequest, events: set<Event>): set<Coordinate> {
    set e, c | e in events && c in Listed(parse, request, e) :: c
  }

  function FreshRoots(request: FetchRequest, events: set<Event>): set<EventId> {
    set e | e in events && IsFreshRoot(request, e) :: e.id
  }

  function RootAuthors(request: FetchRequest, events: set<Event>): set<PublicKey> {
    set e | e in events && IsFreshRoot(request, e) && e.pubkey !in request.contributors :: e.pubkey
  }

  function States(request: FetchRequest, events: set<Event>): set<Stamp> {
    set e | e in events && IsNew(request, e) && e.kind == GitState :: StampOf(e)
  }

  /** The state reported is the newest seen that beats the cached one; with none cached, none is reported. */
  ghost predicate StateIsBest(base: Option<Stamp>, seen: set<Stamp>, best: Option<Stamp>) {
    if base.None? then best.None? else BestOver(base.value, seen, best)
  }

  /** The outcome of a batch that follows the events already `seen`; the order of the batch does not show. */
  ghost predicate Batch(parse: Parser, request: FetchRequest, before: FetchReport, seen: set<Event>, events: set<Event>,
      p: Progress)
  {
    var found := AllListed(parse, request, events) - (Requested(request) + before.coordinates);
    && p.coordinates == found && p.report.coordinates == before.coordinates + found
    && p.roots == FreshRoots(request, events) && p.report.proposals == before.proposals + p.roots
    && p.profiles == Profiles(request, found) + RootAuthors(request, events)
    && StateIsBest(request.state, States(request, seen + events), p.report.updatedState)
  }

  lemma {:induction false} BatchStart(parse: Parser, request: FetchRequest, report: FetchReport, seen: set<Event>)
    requires StateIsBest(request.state, States(request, seen), report.updatedState)
    ensures Batch(parse, request, report, seen, {}, Progress(report, {}, {}, {}))
  {
    assert seen + {} == seen;
  }

  lemma {:induction false} NextStateIsBest(base: Option<Stamp>, seen: set<Stamp>, best: Option<Stamp>, s: Stamp)
    requires StateIsBest(base, seen, best)
    ensures StateIsBest(base, seen + {s}, NextState(base, best, s))
  {
    if base.Some? {
      NewerIsOrder(s, s, s);
      if best.Some? {
        NewerIsOrder(s, best.value, base.value);
        forall t | t in seen
          ensures Newer(s, best.value) ==> !Newer(t, s)
        {
          NewerIsOrder(t, s, best.value);
        }
      } else {
        forall t | t in seen
          ensures Newer(s, base.value) ==> !Newer(t, s)
        {
          NewerIsOrder(t, s, base.value);
        }
      }
    }
  }

  lemma {:induction false} BatchStep(parse: Parser, request: FetchRequest, before: FetchReport, seen: set<Event>,
      events: set<Event>, p: Progress, e: Event, p': Progress)
    requires Batch(parse, request, before, seen, events, p) && Extends(parse, request, e, p, p')
    ensures Batch(parse, request, before, seen, events + {e}, p')
  {
    AllListedSnoc(parse, request, events, e);
    FreshRootsSnoc(request, events, e);
    BatchStepState(request, seen, events, e, p.report.updatedState);
    ProfilesUnion(request, p.coordinates, Listed(parse, request, e) - (Requested(request) + p.report.coordinates));
  }

  lemma {:induction false} AllListedSnoc(parse: Parser, request: FetchRequest, events: set<Event>, e: Event)
    ensures AllListed(parse, request, events + {e}) == AllListed(parse, request, events) + Listed(parse, request, e)
  {}

  lemma {:induction false} FreshRootsSnoc(request: FetchRequest, events: set<Event>, e: Event)
    ensures FreshRoots(request, events + {e}) ==
      FreshRoots(request, events) + (if IsFreshRoot(request, e) then {e.id} else {})
    ensures RootAuthors(request, events + {e})
         == RootAuthors(request, events) +
           (if IsFreshRoot(request, e) && e.pubkey !in request.contributors then {e.pubkey} else {})
  {}

  lemma {:induction false} ProfilesUnion(request: FetchRequest, a: set<Coordinate>, b: set<Coordinate>)
    ensures Profiles(request, a + b) == Profiles(request, a) + Profiles(request, b)
  {}

  lemma {:induction false} BatchStepState(request: FetchRequest, seen: set<Event>, events: set<Event>, e: Event,
      best: Option<Stamp>)
    requires StateIsBest(request.state, States(request, seen + events), best)
    ensures StateIsBest(request.state, States(request, seen + (events + {e})),
              if IsNew(request, e) && e.kind == GitState then NextState(request.state, best, StampOf(e)) else best)
  {
    if IsNew(request, e) && e.kind == GitState {
      NextStateIsBest(request.state, States(request, seen + events), best, StampOf(e));
      assert States(request, seen + (events + {e})) == States(request, seen + events) + {StampOf(e)};
    } else {
      assert States(request, seen + (events + {e})) == States(request, seen + events);
    }
  }

  /** The announcement and profile updates reported are those that the events seen contain. */
  ghost predicate Noted(request: FetchRequest, seen: set<Event>, report: FetchReport) {
    && Elements(report.updatedAnnouncements) == (set e, u | e in seen && u in UpdateOf(request, e) :: u)
    && report.contributorProfiles == (set e, p | e in seen && p in NewProfileOf(request, e) :: p)
    && report.profileUpdates == (set e, p | e in seen && p in ProfileUpdateOf(request, e) :: p)
  }

  lemma {:induction false} NotedStep(request: FetchRequest, seen: set<Event>, report: FetchReport, e: Event,
      report': FetchReport)
    requires Noted(request, seen, report) && Notes(request, e, report, report')
    ensures Noted(request, seen + {e}, report')
  {}

  function AsSet(events: seq<Event>): set<Event> {
    set e | e in events
  }

  predicate IsFreshReply(request: FetchRequest, proposals: set<EventId>, e: Event) {
    IsNew(request, e) && !AnyTagged(e, "e", proposals)
  }

  /** One of the events is a patch under none of the new proposals, and is not itself a proposal. */
  ghost predicate FoundCommit(request: FetchRequest, proposals: set<EventId>, events: seq<Event>, id: EventId) {
    exists e ::
      e in events && IsFreshReply(request, proposals, e) && e.kind == GitPatch && !IsPatchSetRoot(e) && e.id == id
  }

  ghost predicate FoundStatus(request: FetchRequest, proposals: set<EventId>, events: seq<Event>, id: EventId) {
    exists e :: e in events && IsFreshReply(request, proposals, e) && e.kind == GitStatus && e.id == id
  }

  /** `process_fetched_events` */
  method ProcessFetchedEvents(parse: Parser, request: FetchRequest, events: seq<Event>, report: FetchReport,
      ghost seen: set<Event>)
    returns (p: Progress)
    requires StateIsBest(request.state, States(request, seen), report.updatedState) && Noted(request, seen, report)
    ensures Batch(parse, request, report, seen, AsSet(events), p) && Noted(request, seen + AsSet(events), p.report)
    ensures forall id :: id in p.report.commits <==>
      (id in report.commits || FoundCommit(request, p.report.proposals, events, id))
    ensures forall id :: id in p.report.statuses <==>
      (id in report.statuses || FoundStatus(request, p.report.proposals, events, id))
  {
    p := ProcessEvents(parse, request, events, report, seen);
    var commits, statuses := AddReplies(request, events, p.report);
    p := p.(report := p.report.(commits := commits, statuses := statuses));
  }

  /** Where the first loop stands after some of the events. */
  ghost predicate ProcessedSoFar(parse: Parser, request: FetchRequest, report: FetchReport, seen: set<Event>,
      events: seq<Event>, p: Progress)
  {
    && Batch(parse, request, report, seen, AsSet(events), p) && Noted(request, seen + AsSet(events), p.report)
    && p.report.commits == report.commits && p.report.statuses == report.statuses
  }

  lemma {:induction false} ProcessedNothing(parse: Parser, request: FetchRequest, report: FetchReport, seen: set<Event>)
    requires StateIsBest(request.state, States(request, seen), report.updatedState) && Noted(request, seen, report)
    ensures ProcessedSoFar(parse, request, report, seen, [], Progress(report, {}, {}, {}))
  {
    BatchStart(parse, request, report, seen);
    assert AsSet([]) == {} && seen + {} == seen;
  }

  lemma {:induction false} ProcessedOne(parse: Parser, request: FetchRequest, report: FetchReport, seen: set<Event>,
      events: seq<Event>, p: Progress, e: Event, next: Progress)
    requires ProcessedSoFar(parse, request, report, seen, events, p)
    requires Extends(parse, request, e, p, next) && Notes(request, e, p.report, next.report)
    ensures ProcessedSoFar(parse, request, report, seen, events + [e], next)
  {
    BatchStep(parse, request, report, seen, AsSet(events), p, e, next);
    NotedStep(request, seen + AsSet(events), p.report, e, next.report);
    AsSetSnoc(seen, events, e);
  }

  lemma {:induction false} AsSetSnoc(seen: set<Event>, events: seq<Event>, e: Event)
    ensures AsSet(events + [e]) == AsSet(events) + {e}
    ensures seen + AsSet(events + [e]) == seen + AsSet(events) + {e}
  {}

  /** The first loop of `process_fetched_events`. */
  method ProcessEvents(parse: Parser, request: FetchRequest, events: seq<Event>, report: FetchReport,
      ghost seen: set<Event>)
    returns (p: Progress)
    requires StateIsBest(request.state, States(request, seen), report.updatedState) && Noted(request, seen, report)
    ensures ProcessedSoFar(parse, request, report, seen, events, p)
  {
    p := Progress(report, {}, {}, {});
    ProcessedNothing(parse, request, report, seen);
    for i := 0 to |events|
      invariant ProcessedSoFar(parse, request, report, seen, events[..i], p)
    {
      hide *;
      assert events[..i + 1] == events[..i] + [events[i]];
      var next := ProcessEvent(parse, request, events[i], p);
      ProcessedOne(parse, request, report, seen, events[..i], p, events[i], next);
      p := next;
    }
    assert events[..|events|] == events;
  }

  /** The second loop of `process_fetched_events`. */
  method AddReplies(request: FetchRequest, events: seq<Event>, report: FetchReport)
    returns (commits: set<EventId>, statuses: set<EventId>)
    ensures forall id :: id in commits <==> (id in report.commits || FoundCommit(request, report.proposals, events, id))
    ensures forall id :: id in statuses <==>
      (id in report.statuses || FoundStatus(request, report.proposals, events, id))
  {
    commits, statuses := report.commits, report.statuses;
    for i := 0 to |events|
      invariant forall id :: id in commits <==>
        (id in report.commits || FoundCommit(request, report.proposals, events[..i], id))
      invariant forall id :: id in statuses <==>
        (id in report.statuses || FoundStatus(request, report.proposals, events[..i], id))
    {
      var event := events[i];
      assert events[..i + 1] == events[..i] + [event];
      assert event in events[..i + 1];
      if IsFreshReply(request, report.proposals, event) {
        if event.kind == GitPatch && !IsPatchSetRoot(event) {
          commits := commits + {event.id};
        } else if event.kind == GitStatus {
          statuses := statuses + {event.id};
        }
      }
    }
    assert events[..|events|] == events;
  }

  // ---------------------------------------------------------------- rounds

  /** Events only mention events that existed before them, their ids being hashes. */
  ghost predicate Acyclic(relay: set<Event>, roots: set<EventId>, rank: map<EventId, nat>) {
    && (forall e | e in relay :: e.id in rank)
    && (forall id | id in roots :: id in rank)
    && (forall e, id | e in relay && id in rank && Mentions(e, id) :: rank[id] < rank[e.id])
  }

  ghost predicate IsAbove(rank: map<EventId, nat>, roots: set<EventId>, e: Event) {
    e.id in rank && exists r :: r in roots && r in rank && rank[r] < rank[e.id]
  }

  /** The events that could reply, directly or not, to one of the roots. */
  ghost function Above(relay: set<Event>, rank: map<EventId, nat>, roots: set<EventId>): set<Event> {
    set e | e in relay && IsAbove(rank, roots, e)
  }

  lemma {:induction false} LeastRank(rank: map<EventId, nat>, roots: set<EventId>) returns (least: EventId)
    requires roots != {} && roots <= rank.Keys
    ensures least in roots && forall r | r in roots :: rank[least] <= rank[r]
  {
    var r :| r in roots;
    if roots == {r} {
      return r;
    }
    least := LeastRank(rank, roots - {r});
    if rank[r] < rank[least] {
      least := r;
    }
  }

  /** Fresh roots that all reply to the previous ones sit strictly higher. */
  lemma {:induction false} RootsClimb(relay: set<Event>, rank: map<EventId, nat>, roots: set<EventId>,
      roots': set<EventId>)
    requires forall e | e in relay :: e.id in rank
    requires roots' != {} && roots <= rank.Keys
    requires forall r | r in roots' :: exists e :: e in relay && e.id == r && IsAbove(rank, roots, e)
    ensures Above(relay, rank, roots') < Above(relay, rank, roots)
  {
    forall r | r in roots'
      ensures r in rank
    {
      var e :| e in relay && e.id == r && IsAbove(rank, roots, e);
    }
    var least := LeastRank(rank, roots');
    var lowest :| lowest in relay && lowest.id == least && IsAbove(rank, roots, lowest);
    assert lowest in Above(relay, rank, roots) && lowest !in Above(relay, rank, roots');
    forall e | e in Above(relay, rank, roots')
      ensures IsAbove(rank, roots, e)
    {
      var r :| r in roots' && r in rank && rank[r] < rank[e.id];
      var at :| at in relay && at.id == r && IsAbove(rank, roots, at);
    }
  }

  ghost predicate AsksFor(c: Coordinate, e: Event) {
    Matches(StateFilter({c}), e) || Matches(RepoFilter({c}), e) || Matches(PatchFilter({c}), e)
  }

  /** Everything on the relay about the coordinates, under the roots and about the profiles has been seen. */
  ghost predicate Answered(relay: set<Event>, seen: set<Event>, coordinates: set<Coordinate>, roots: set<EventId>,
      profiles: set<PublicKey>)
  {
    && (forall c, e | c in coordinates && e in relay && AsksFor(c, e) :: e in seen)
    && (forall r, e | r in roots && e in relay && Matches(ThreadFilter({r}), e) :: e in seen)
    && (forall p, e | p in profiles && e in relay && Matches(ProfileFilter({p}), e) :: e in seen)
  }

  lemma {:induction false} AsksInRound(coordinates: set<Coordinate>, roots: set<EventId>, profiles: set<PublicKey>,
      c: Coordinate, e: Event)
    requires c in coordinates && AsksFor(c, e)
    ensures MatchesAny(GetFetchFilters(coordinates, roots, profiles), e)
  {
    var filters := GetFetchFilters(coordinates, roots, profiles);
    if Matches(StateFilter({c}), e) {
      assert c.identifier in StateFilter(coordinates).identifiers.value;
      assert Matches(StateFilter(coordinates), e) && StateFilter(coordinates) in filters;
    } else if Matches(RepoFilter({c}), e) {
      assert c.identifier in RepoFilter(coordinates).identifiers.value;
      assert Matches(RepoFilter(coordinates), e) && RepoFilter(coordinates) in filters;
    } else {
      assert Address(c) in PatchFilter(coordinates).addresses.value;
      assert Matches(PatchFilter(coordinates), e) && PatchFilter(coordinates) in filters;
    }
  }

  lemma {:induction false} ThreadInRound(coordinates: set<Coordinate>, roots: set<EventId>, profiles: set<PublicKey>,
      r: EventId, e: Event)
    requires r in roots && Matches(ThreadFilter({r}), e)
    ensures MatchesAny(GetFetchFilters(coordinates, roots, profiles), e)
  {
    assert Matches(ThreadFilter(roots), e) && ThreadFilter(roots) in GetFetchFilters(coordinates, roots, profiles);
  }

  // ---------------------------------------------------------------- discovery

  /** Closed under what the announcements by its members, under an identifier of its members, list. */
  ghost predicate CrossClosed(parse: Parser, request: FetchRequest, relay: set<Event>, s: set<Coordinate>) {
    && Requested(request) <= s
    && forall a, b, e | a in s && b in s && e in relay && e.kind == GitRepoAnnouncement && e.pubkey == a.pubkey &&
      Tagged(e.tags, "d", b.identifier) ::
         Listed(parse, request, e) <= s
  }

  /** Closed under what the announcements of its members list. */
  ghost predicate Closed(parse: Parser, request: FetchRequest, relay: set<Event>, s: set<Coordinate>) {
    && Requested(request) <= s
    && forall c, e | c in s && e in relay && IsAnnouncementOf(e, c) :: Listed(parse, request, e) <= s
  }

  /** The report is what the events seen amount to. */
  ghost predicate ReportOf(parse: Parser, request: FetchRequest, seen: set<Event>, report: FetchReport) {
    && report.coordinates == AllListed(parse, request, seen) - Requested(request)
    && report.proposals == FreshRoots(request, seen)
    && StateIsBest(request.state, States(request, seen), report.updatedState)
    && Noted(request, seen, report)
  }

  /** The newest state event seen is reported if and only if an older one is cached. */
  lemma {:induction false} NewestStateReported(parse: Parser, request: FetchRequest, seen: set<Event>,
      report: FetchReport, s: Stamp)
    requires ReportOf(parse, request, seen, report)
    requires s in States(request, seen) && forall t | t in States(request, seen) :: !Newer(t, s)
    ensures report.updatedState == Some(s) <==> request.state.Some? && Newer(s, request.state.value)
  {
    if request.state.Some? && report.updatedState.Some? {
      NewerIsOrder(report.updatedState.value, s, s);
    }
  }

  /** What is reported depends on the events seen alone: not on their order, nor on the rounds they came in. */
  lemma {:induction false} ReportDetermined(parse: Parser, request: FetchRequest, seen: set<Event>,
      report1: FetchReport, report2: FetchReport)
    requires ReportOf(parse, request, seen, report1) && ReportOf(parse, request, seen, report2)
    ensures report1.coordinates == report2.coordinates && report1.proposals == report2.proposals &&
      report1.updatedState == report2.updatedState
    ensures Elements(report1.updatedAnnouncements) == Elements(report2.updatedAnnouncements)
    ensures report1.contributorProfiles == report2.contributorProfiles &&
      report1.profileUpdates == report2.profileUpdates
  {
    if request.state.Some? {
      BestOverUnique(request.state.value, States(request, seen), report1.updatedState, report2.updatedState);
    }
  }

  lemma {:induction false} ReportExtended(parse: Parser, request: FetchRequest, seen: set<Event>, report: FetchReport,
      events: set<Event>, p: Progress)
    requires ReportOf(parse, request, seen, report) && Batch(parse, request, report, seen, events, p) &&
      Noted(request, seen + events, p.report)
    ensures ReportOf(parse, request, seen + events, p.report)
  {
    assert AllListed(parse, request, seen + events) ==
      AllListed(parse, request, seen) + AllListed(parse, request, events);
    assert FreshRoots(request, seen + events) == FreshRoots(request, seen) + FreshRoots(request, events);
  }

  // ---------------------------------------------------------------- the loop

  function Known(request: FetchRequest, report: FetchReport): set<Coordinate> {
    Requested(request) + report.coordinates
  }

  /** Everybody whose profile the fetch is after: those asked for, and whoever turned up and is no contributor yet. */
  function Wanted(request: FetchRequest, report: FetchReport, seen: set<Event>): set<PublicKey> {
    request.missingContributorProfiles + request.profilesToFetch.Keys + Profiles(request, report.coordinates) +
      RootAuthors(request, seen)
  }

  lemma {:induction false} WantedExtended(parse: Parser, request: FetchRequest, before: FetchReport, seen: set<Event>,
      events: set<Event>, p: Progress)
    requires Batch(parse, request, before, seen, events, p)
    ensures Wanted(request, p.report, seen + events) == Wanted(request, before, seen) + p.profiles
  {
    ProfilesUnion(request, before.coordinates, p.coordinates);
    assert RootAuthors(request, seen + events) == RootAuthors(request, seen) + RootAuthors(request, events);
  }

  /** What has been asked and answered after a round that a complete answer settled. */
  lemma {:induction false} RoundAnswered(relay: set<Event>, seen: set<Event>, answer: set<Event>,
      coordinates: set<Coordinate>, roots: set<EventId>, profiles: set<PublicKey>, coordinates0: set<Coordinate>,
      roots0: set<EventId>, profiles0: set<PublicKey>)
    requires Answered(relay, seen, coordinates0 - coordinates, roots0 - roots, profiles0 - profiles)
    requires forall e | e in relay && MatchesAny(GetFetchFilters(coordinates, roots, profiles), e) :: e in answer
    ensures Answered(relay, seen + answer, coordinates0, roots0, profiles0)
  {
    forall c, e | c in coordinates0 && e in relay && AsksFor(c, e)
      ensures e in seen + answer
    {
      if c in coordinates {
        AsksInRound(coordinates, roots, profiles, c, e);
      }
    }
    forall r, e | r in roots0 && e in relay && Matches(ThreadFilter({r}), e)
      ensures e in seen + answer
    {
      if r in roots {
        ThreadInRound(coordinates, roots, profiles, r, e);
      }
    }
    forall p, e | p in profiles0 && e in relay && Matches(ProfileFilter({p}), e)
      ensures e in seen + answer
    {
      if p in profiles {
        assert Matches(ProfileFilter(profiles), e) &&
          ProfileFilter(profiles) in GetFetchFilters(coordinates, roots, profiles);
      }
    }
  }

  /** A round only finds coordinates that every closed set has. */
  lemma {:induction false} RoundSound(parse: Parser, request: FetchRequest, relay: set<Event>, s: set<Coordinate>,
      events: set<Event>, coordinates: set<Coordinate>, roots: set<EventId>, profiles: set<PublicKey>)
    requires CrossClosed(parse, request, relay, s) && coordinates <= s && events <= relay
    requires forall e | e in events :: MatchesAny(GetFetchFilters(coordinates, roots, profiles), e)
    ensures AllListed(parse, request, events) <= s
  {
    forall e | e in events
      ensures Listed(parse, request, e) <= s
    {
      if e.kind == GitRepoAnnouncement {
        AnnouncementsAsked(coordinates, roots, profiles, e);
      }
    }
  }

  lemma {:induction false} AuthorsHaveRoots(request: FetchRequest, events: set<Event>)
    requires RootAuthors(request, events) != {}
    ensures FreshRoots(request, events) != {}
  {
    var author :| author in RootAuthors(request, events);
    var e :| e in events && IsFreshRoot(request, e) && e.pubkey == author;
    assert e.id in FreshRoots(request, events);
  }

  /** A round without fresh coordinates that finds anything finds roots, all of them above the ones asked about. */
  lemma {:induction false} RoundClimbs(parse: Parser, request: FetchRequest, relay: set<Event>, rank: map<EventId, nat>,
      before: FetchReport, seen: set<Event>, events: set<Event>, p: Progress, roots: set<EventId>,
      profiles: set<PublicKey>)
    requires Acyclic(relay, roots, rank) && events <= relay && Batch(parse, request, before, seen, events, p)
    requires forall e | e in events :: MatchesAny(GetFetchFilters({}, roots, profiles), e)
    requires p.roots != {} || p.profiles != {}
    ensures p.coordinates == {} && Above(relay, rank, p.roots) < Above(relay, rank, roots)
  {
    forall e | e in events
      ensures Listed(parse, request, e) == {}
    {
      if e.kind == GitRepoAnnouncement {
        AnnouncementsAsked({}, roots, profiles, e);
        assert false;
      }
    }
    forall r | r in p.roots
      ensures exists e :: e in relay && e.id == r && IsAbove(rank, roots, e)
    {
      var e :| e in events && IsFreshRoot(request, e) && e.id == r;
      PatchesAskedByThread(roots, profiles, e);
    }
    assert p.coordinates == {} && p.profiles == RootAuthors(request, events);
    if p.profiles != {} {
      AuthorsHaveRoots(request, events);
    }
    RootsClimb(relay, rank, roots, p.roots);
  }

  lemma {:induction false} RoundKeepsAnswered(parse: Parser, request: FetchRequest, relay: set<Event>,
      before: FetchReport, seen: set<Event>, events: set<Event>, p: Progress, coordinates: set<Coordinate>,
      roots: set<EventId>, profiles: set<PublicKey>)
    requires Batch(parse, request, before, seen, events, p)
    requires Answered(relay, seen, Known(request, before) - coordinates, (request.proposals + before.proposals) - roots,
      Wanted(request, before, seen) - profiles)
    requires forall e | e in relay && MatchesAny(GetFetchFilters(coordinates, roots, profiles), e) :: e in events
    ensures Answered(relay, seen + events, Known(request, p.report) - p.coordinates,
      (request.proposals + p.report.proposals) - p.roots,
                     Wanted(request, p.report, seen + events) - p.profiles)
  {
    WantedExtended(parse, request, before, seen, events, p);
    RoundAnswered(relay, seen, events, coordinates, roots, profiles, Known(request, before),
      request.proposals + before.proposals, Wanted(request, before, seen));
  }

  predicate LeavesOutNothing(relay: set<Event>, filters: set<Filter>, answer: set<Event>) {
    forall e | e in relay && MatchesAny(filters, e) :: e in answer
  }

  /** The relay's answer to a query. */
  method Query(relay: set<Event>, filters: set<Filter>, honest: bool) returns (answer: set<Event>)
    ensures answer <= relay && (honest ==> LeavesOutNothing(relay, filters, answer))
  {
    assert LeavesOutNothing(relay, filters, relay);
    answer :| answer <= relay && (honest ==> LeavesOutNothing(relay, filters, answer));
  }

  predicate IsCommit(request: FetchRequest, e: Event) {
    IsNew(request, e) && e.kind == GitPatch && !IsPatchSetRoot(e)
  }

  predicate IsStatus(request: FetchRequest, e: Event) {
    IsNew(request, e) && e.kind == GitStatus
  }

  /** The commits among the events that are under none of the proposals. */
  function LooseCommits(request: FetchRequest, events: set<Event>, proposals: set<EventId>): set<EventId> {
    set e | e in events && IsCommit(request, e) && !AnyTagged(e, "e", proposals) :: e.id
  }

  function LooseStatuses(request: FetchRequest, events: set<Event>, proposals: set<EventId>): set<EventId> {
    set e | e in events && IsStatus(request, e) && !AnyTagged(e, "e", proposals) :: e.id
  }

  /** What a batch adds to the commits and statuses. */
  ghost predicate RepliesAdded(request: FetchRequest, before: FetchReport, events: set<Event>, report: FetchReport) {
    && before.proposals <= report.proposals
    && report.commits == before.commits + LooseCommits(request, events, report.proposals)
    && report.statuses == before.statuses + LooseStatuses(request, events, report.proposals)
  }

  /** Commits and statuses are reported if they are under no proposal reported, and only if they were seen;
      one that was seen before its proposal may be reported or not. */
  ghost predicate RepliesReported(request: FetchRequest, seen: set<Event>, report: FetchReport) {
    && (forall e | e in seen && IsCommit(request, e) && !AnyTagged(e, "e", report.proposals) :: e.id in report.commits)
    && report.commits <= (set e | e in seen && IsCommit(request, e) :: e.id)
    && (forall e | e in seen && IsStatus(request, e) && !AnyTagged(e, "e", report.proposals) :: e.id in report.statuses)
    && report.statuses <= (set e | e in seen && IsStatus(request, e) :: e.id)
  }

  lemma {:induction false} RoundKeepsReplies(request: FetchRequest, seen: set<Event>, before: FetchReport,
      events: set<Event>, report: FetchReport)
    requires RepliesReported(request, seen, before) && RepliesAdded(request, before, events, report)
    ensures RepliesReported(request, seen + events, report)
  {
    forall e | e in seen && !AnyTagged(e, "e", report.proposals)
      ensures !AnyTagged(e, "e", before.proposals)
    {}
  }

  /** An event that is asked for because of some coordinates, roots and keys: states and announcements by the keys and
      under the identifiers of the coordinates, patches and deletions under their addresses, patches, deletions and
      statuses under the roots, and profiles of the keys. */
  ghost predicate AskedFor(coordinates: set<Coordinate>, roots: set<EventId>, keys: set<PublicKey>, e: Event) {
    || (e.kind in {GitState, GitRepoAnnouncement} && exists a, b ::
          a in coordinates && b in coordinates && e.pubkey == a.pubkey && Tagged(e.tags, "d", b.identifier))
    || (e.kind in {GitPatch, EventDeletion} && exists c ::
          c in coordinates && Tagged(e.tags, "a", "30617:" + c.pubkey + ":" + c.identifier))
    || (e.kind in {GitPatch, EventDeletion, GitStatus} && exists r :: r in roots && Tagged(e.tags, "e", r))
    || (e.kind in {Metadata, RelayList} && e.pubkey in keys)
  }

  /** The filters of a round match exactly those. */
  lemma {:induction false} FiltersMean(coordinates: set<Coordinate>, roots: set<EventId>, keys: set<PublicKey>,
      e: Event)
    ensures MatchesAny(GetFetchFilters(coordinates, roots, keys), e) <==> AskedFor(coordinates, roots, keys, e)
  {
    hide Tagged;
    var filters := GetFetchFilters(coordinates, roots, keys);
    if AskedFor(coordinates, roots, keys, e) {
      AskedIsMatched(coordinates, roots, keys, e);
    }
    if f :| f in filters && Matches(f, e) {
      MatchedIsAsked(coordinates, roots, keys, e, f);
    }
  }

  lemma {:induction false} AskedIsMatched(coordinates: set<Coordinate>, roots: set<EventId>, keys: set<PublicKey>,
      e: Event)
    requires AskedFor(coordinates, roots, keys, e)
    ensures MatchesAny(GetFetchFilters(coordinates, roots, keys), e)
  {
    hide Tagged;
    var filters := GetFetchFilters(coordinates, roots, keys);
    if e.kind in {GitState, GitRepoAnnouncement} {
      var a, b :| a in coordinates && b in coordinates && e.pubkey == a.pubkey && Tagged(e.tags, "d", b.identifier);
      assert b.identifier in RepoFilter(coordinates).identifiers.value;
      assert b.identifier in StateFilter(coordinates).identifiers.value;
      assert StateFilter(coordinates) in filters && RepoFilter(coordinates) in filters;
      assert Matches(StateFilter(coordinates), e) || Matches(RepoFilter(coordinates), e);
    } else if e.kind in {Metadata, RelayList} {
      assert ProfileFilter(keys) in filters && Matches(ProfileFilter(keys), e);
    } else if r :| r in roots && Tagged(e.tags, "e", r) {
      assert ThreadFilter(roots) in filters && Matches(ThreadFilter(roots), e);
    } else {
      var c :| c in coordinates && Tagged(e.tags, "a", "30617:" + c.pubkey + ":" + c.identifier);
      assert Address(c) in PatchFilter(coordinates).addresses.value;
      assert PatchFilter(coordinates) in filters && Matches(PatchFilter(coordinates), e);
    }
  }

  lemma {:induction false} MatchedIsAsked(coordinates: set<Coordinate>, roots: set<EventId>, keys: set<PublicKey>,
      e: Event, f: Filter)
    requires f in GetFetchFilters(coordinates, roots, keys) && Matches(f, e)
    ensures AskedFor(coordinates, roots, keys, e)
  {
    hide Tagged;
    if f == StateFilter(coordinates) || f == RepoFilter(coordinates) {
      var a :| a in coordinates && a.pubkey == e.pubkey;
      var d :| d in f.identifiers.value && Tagged(e.tags, "d", d);
      var b :| b in coordinates && b.identifier == d;
    } else if f == PatchFilter(coordinates) {
      var address :| address in f.addresses.value && Tagged(e.tags, "a", address);
      var c :| c in coordinates && Address(c) == address;
    }
  }

  lemma {:induction false} MoreAskedFor(coordinates: set<Coordinate>, roots: set<EventId>, keys: set<PublicKey>,
      coordinates': set<Coordinate>, roots': set<EventId>, keys': set<PublicKey>, e: Event)
    requires AskedFor(coordinates, roots, keys, e)
    requires coordinates <= coordinates' && roots <= roots' && keys <= keys'
    ensures AskedFor(coordinates', roots', keys', e)
  {
    hide Tagged;
  }

  /** Nothing is asked about but what is known, and nothing was processed but what that asks for. */
  ghost predicate OnTrack(request: FetchRequest, seen: set<Event>, now: Progress) {
    && now.coordinates <= Known(request, now.report) && now.roots <= request.proposals + now.report.proposals
    && now.profiles <= Wanted(request, now.report, seen)
    && forall e | e in seen ::
         AskedFor(Known(request, now.report), request.proposals + now.report.proposals,
           Wanted(request, now.report, seen), e)
  }

  lemma {:induction false} RoundStaysOnTrack(parse: Parser, request: FetchRequest, relay: set<Event>, honest: bool,
      seen: set<Event>, now: Progress, events: set<Event>, p: Progress)
    requires OnTrack(request, seen, now) && IsRound(parse, request, relay, honest, now.report, seen, now, events, p)
    ensures OnTrack(request, seen + events, p)
  {
    WantedExtended(parse, request, now.report, seen, events, p);
    var known, roots := Known(request, now.report), request.proposals + now.report.proposals;
    var keys := Wanted(request, now.report, seen);
    var known', roots' := Known(request, p.report), request.proposals + p.report.proposals;
    var keys' := Wanted(request, p.report, seen + events);
    assert known <= known' && roots <= roots' && keys <= keys';
    assert p.coordinates <= known' && p.roots <= roots' && p.profiles <= keys';
    hide AskedFor, Known, Wanted, MatchesAny, GetFetchFilters, Noted, RepliesAdded;
    forall e | e in seen + events
      ensures AskedFor(known', roots', keys', e)
    {
      if e in events {
        FiltersMean(now.coordinates, now.roots, now.profiles, e);
        MoreAskedFor(now.coordinates, now.roots, now.profiles, known', roots', keys', e);
      } else {
        MoreAskedFor(known, roots, keys, known', roots', keys', e);
      }
    }
  }

  /** What one round asks, and what it makes of the answer. */
  ghost predicate IsRound(parse: Parser, request: FetchRequest, relay: set<Event>, honest: bool, report: FetchReport,
      seen: set<Event>, now: Progress, events: set<Event>, p: Progress)
  {
    var filters := GetFetchFilters(now.coordinates, now.roots, now.profiles);
    && events <= relay && (forall e | e in events :: MatchesAny(filters, e)) &&
      (honest ==> LeavesOutNothing(relay, filters, events))
    && Batch(parse, request, report, seen, events, p) && Noted(request, seen + events, p.report)
    && RepliesAdded(request, report, events, p.report)
  }

  /** What holds whenever a round starts, `now` being what it is to ask about. */
  ghost predicate Underway(parse: Parser, request: FetchRequest, relay: set<Event>, honest: bool, seen: set<Event>,
      now: Progress)
  {
    && seen <= relay && ReportOf(parse, request, seen, now.report) && now.coordinates <= Known(request, now.report)
    && (honest ==>
          Answered(relay, seen, Known(request, now.report) - now.coordinates,
            (request.proposals + now.report.proposals) - now.roots, Wanted(request, now.report, seen) - now.profiles))
    && (forall s | CrossClosed(parse, request, relay, s) :: Known(request, now.report) <= s)
  }

  lemma {:induction false} RoundKeeps(parse: Parser, request: FetchRequest, relay: set<Event>, honest: bool,
      seen: set<Event>, now: Progress, events: set<Event>, p: Progress)
    requires Underway(parse, request, relay, honest, seen, now) &&
      IsRound(parse, request, relay, honest, now.report, seen, now, events, p)
    ensures Underway(parse, request, relay, honest, seen + events, p)
  {
    ReportExtended(parse, request, seen, now.report, events, p);
    if honest {
      RoundKeepsAnswered(parse, request, relay, now.report, seen, events, p, now.coordinates, now.roots, now.profiles);
    }
    forall s | CrossClosed(parse, request, relay, s)
      ensures Known(request, p.report) <= s
    {
      RoundSound(parse, request, relay, s, events, now.coordinates, now.roots, now.profiles);
    }
  }

  lemma {:induction false} RoundReplies(parse: Parser, request: FetchRequest, relay: set<Event>, honest: bool,
      report: FetchReport, seen: set<Event>, now: Progress, events: set<Event>, p: Progress)
    requires IsRound(parse, request, relay, honest, report, seen, now, events, p) &&
      RepliesReported(request, seen, report)
    ensures RepliesReported(request, seen + events, p.report)
  {
    RoundKeepsReplies(request, seen, report, events, p.report);
  }

  /** How much the relay could still bring up. */
  ghost function Undiscovered(parse: Parser, request: FetchRequest, relay: set<Event>, report: FetchReport):
    set<Coordinate>
  {
    AllListed(parse, request, relay) - Known(request, report)
  }

  /** A round that finds anything finds coordinates, or is the first after one that did, or climbs in the threads. */
  lemma {:induction false} RoundAdvances(parse: Parser, request: FetchRequest, relay: set<Event>, honest: bool,
      rank: map<EventId, nat>, seen: set<Event>, now: Progress, events: set<Event>, p: Progress)
    requires Acyclic(relay, now.roots, rank) && IsRound(parse, request, relay, honest, now.report, seen, now, events, p)
    requires p.coordinates != {} || p.roots != {} || p.profiles != {}
    ensures Acyclic(relay, p.roots, rank)
    ensures |Undiscovered(parse, request, relay, p.report)| < |Undiscovered(parse, request, relay, now.report)|
      || (p.coordinates == {} && |Undiscovered(parse, request, relay, p.report)| ==
        |Undiscovered(parse, request, relay, now.report)|
          && (now.coordinates != {} || |Above(relay, rank, p.roots)| < |Above(relay, rank, now.roots)|))
  {
    if p.coordinates != {} {
      assert AllListed(parse, request, events) <= AllListed(parse, request, relay);
      var c :| c in p.coordinates;
      assert c in Undiscovered(parse, request, relay, now.report);
      ProperSubsetSmaller(Undiscovered(parse, request, relay, p.report),
        Undiscovered(parse, request, relay, now.report));
    } else if now.coordinates == {} {
      RoundClimbs(parse, request, relay, rank, now.report, seen, events, p, now.roots, now.profiles);
      ProperSubsetSmaller(Above(relay, rank, p.roots), Above(relay, rank, now.roots));
    }
  }

  lemma {:induction false} ProperSubsetSmaller<T>(a: set<T>, b: set<T>)
    requires a < b
    ensures |a| < |b|
  {
    assert |b - a| == |b| - |a * b| && a * b == a;
  }

  lemma {:induction false} BatchReplies(request: FetchRequest, before: FetchReport, events: seq<Event>,
      report: FetchReport)
    requires before.proposals <= report.proposals
    requires forall id :: id in report.commits <==>
      (id in before.commits || FoundCommit(request, report.proposals, events, id))
    requires forall id :: id in report.statuses <==>
      (id in before.statuses || FoundStatus(request, report.proposals, events, id))
    ensures RepliesAdded(request, before, AsSet(events), report)
  {}

  method FetchRound(parse: Parser, request: FetchRequest, relay: set<Event>, honest: bool, now: Progress,
      ghost seen: set<Event>)
    returns (p: Progress, processed: set<Event>)
    requires Underway(parse, request, relay, honest, seen, now)
    ensures IsRound(parse, request, relay, honest, now.report, seen, now, processed, p)
  {
    var filters := GetFetchFilters(now.coordinates, now.roots, now.profiles);
    var answer := Query(relay, filters, honest);
    var matching := set e | e in answer && MatchesAny(filters, e);
    var events := InAnyOrder(matching);
    assert AsSet(events) == matching;
    p := ProcessFetchedEvents(parse, request, events, now.report, seen);
    processed := matching;
    BatchReplies(request, now.report, events, p.report);
  }

  lemma {:induction false} Starts(parse: Parser, request: FetchRequest, relay: set<Event>, honest: bool, now: Progress)
    requires now == Progress(EMPTY, Requested(request), request.proposals,
      request.missingContributorProfiles + request.profilesToFetch.Keys)
    ensures Underway(parse, request, relay, honest, {}, now)
  {}

  lemma {:induction false} AllAnswered(parse: Parser, request: FetchRequest, relay: set<Event>, honest: bool,
      seen: set<Event>, p: Progress)
    requires Underway(parse, request, relay, honest, seen, p) && p.coordinates == {} && p.roots == {} &&
      p.profiles == {}
    ensures honest ==>
      Answered(relay, seen, Known(request, p.report), request.proposals + p.report.proposals,
        Wanted(request, p.report, seen))
  {
    assert Known(request, p.report) - {} == Known(request, p.report);
  }

  // ---------------------------------------------------------------- honest runs

  /** A round of a run, without what follows from the events seen alone. */
  datatype Stage = Stage(seen: set<Event>, coordinates: set<Coordinate>, roots: set<EventId>, profiles: set<PublicKey>,
                         known: set<Coordinate>, proposals: set<EventId>, commits: set<EventId>, statuses: set<EventId>)

  function StageOf(seen: set<Event>, p: Progress): Stage {
    Stage(seen, p.coordinates, p.roots, p.profiles, p.report.coordinates, p.report.proposals, p.report.commits,
      p.report.statuses)
  }

  function Asked(relay: set<Event>, s: Stage): set<Event> {
    set e | e in relay && MatchesAny(GetFetchFilters(s.coordinates, s.roots, s.profiles), e)
  }

  /** The round that follows when the relay leaves out nothing. */
  function Next(parse: Parser, request: FetchRequest, relay: set<Event>, s: Stage): Stage {
    var events := Asked(relay, s);
    var found := AllListed(parse, request, events) - (Requested(request) + s.known);
    var proposals := s.proposals + FreshRoots(request, events);
    Stage(s.seen + events, found, FreshRoots(request, events), Profiles(request, found) + RootAuthors(request, events),
          s.known + found, proposals,
          s.commits + LooseCommits(request, events, proposals), s.statuses + LooseStatuses(request, events, proposals))
  }

  function Start(request: FetchRequest): Progress {
    Progress(EMPTY, Requested(request), request.proposals,
      request.missingContributorProfiles + request.profilesToFetch.Keys)
  }

  function After(parse: Parser, request: FetchRequest, relay: set<Event>, k: nat): Stage {
    if k == 0 then StageOf({}, Start(request)) else Next(parse, request, relay, After(parse, request, relay, k - 1))
  }

  predicate IsSettled(s: Stage) {
    s.coordinates == {} && s.roots == {} && s.profiles == {}
  }

  /** The first round that finds nothing is the last. */
  ghost predicate SettlesAt(parse: Parser, request: FetchRequest, relay: set<Event>, k: nat) {
    && k >= 1 && IsSettled(After(parse, request, relay, k))
    && forall j | 1 <= j < k :: !IsSettled(After(parse, request, relay, j))
  }

  ghost predicate OutcomeAt(parse: Parser, request: FetchRequest, relay: set<Event>, seen: set<Event>,
      report: FetchReport, k: nat)
  {
    && SettlesAt(parse, request, relay, k)
    && After(parse, request, relay, k)
         == Stage(seen, {}, {}, {}, report.coordinates, report.proposals, report.commits, report.statuses)
  }

  /** Against an honest relay a round is determined by the one before. */
  lemma {:induction false} RoundIsNext(parse: Parser, request: FetchRequest, relay: set<Event>, seen: set<Event>,
      now: Progress, events: set<Event>, p: Progress)
    requires IsRound(parse, request, relay, true, now.report, seen, now, events, p)
    ensures StageOf(seen + events, p) == Next(parse, request, relay, StageOf(seen, now))
  {
    assert events == Asked(relay, StageOf(seen, now));
  }

  /** Where an honest run stands after `k` rounds. */
  ghost predicate RunsTo(parse: Parser, request: FetchRequest, relay: set<Event>, seen: set<Event>, now: Progress,
      k: nat)
  {
    && After(parse, request, relay, k) == StageOf(seen, now)
    && forall j | 1 <= j <= k :: !IsSettled(After(parse, request, relay, j))
  }

  lemma {:induction false} RunStarts(parse: Parser, request: FetchRequest, relay: set<Event>)
    ensures RunsTo(parse, request, relay, {}, Start(request), 0)
  {}

  lemma {:induction false} StageGoesOn(parse: Parser, request: FetchRequest, relay: set<Event>, seen: set<Event>,
      now: Progress, seen': set<Event>, p: Progress, k: nat)
    requires RunsTo(parse, request, relay, seen, now, k)
    requires StageOf(seen', p) == Next(parse, request, relay, StageOf(seen, now))
    ensures !IsSettled(StageOf(seen', p)) ==> RunsTo(parse, request, relay, seen', p, k + 1)
    ensures IsSettled(StageOf(seen', p)) ==> OutcomeAt(parse, request, relay, seen', p.report, k + 1)
  {
    hide Next;
    assert After(parse, request, relay, k + 1) == StageOf(seen', p);
  }

  lemma {:induction false} RunGoesOn(parse: Parser, request: FetchRequest, relay: set<Event>, seen: set<Event>,
      now: Progress, events: set<Event>, p: Progress, k: nat)
    requires RunsTo(parse, request, relay, seen, now, k)
    requires IsRound(parse, request, relay, true, now.report, seen, now, events, p)
    ensures !IsSettled(StageOf(seen + events, p)) ==> RunsTo(parse, request, relay, seen + events, p, k + 1)
    ensures IsSettled(StageOf(seen + events, p)) ==> OutcomeAt(parse, request, relay, seen + events, p.report, k + 1)
  {
    hide *;
    RoundIsNext(parse, request, relay, seen, now, events, p);
    StageGoesOn(parse, request, relay, seen, now, seen + events, p, k);
  }

  /** Requests for profiles alone show nothing but profiles. */
  ghost predicate ProfilesOnly(request: FetchRequest, seen: set<Event>, now: Progress) {
    Requested(request) == {} && request.proposals == {} ==>
      now.coordinates == {} && now.roots == {} && forall e | e in seen :: e.kind in {Metadata, RelayList}
  }

  lemma {:induction false} RoundKeepsProfilesOnly(parse: Parser, request: FetchRequest, relay: set<Event>, honest: bool,
      seen: set<Event>, now: Progress, events: set<Event>, p: Progress)
    requires ProfilesOnly(request, seen, now) &&
      IsRound(parse, request, relay, honest, now.report, seen, now, events, p)
    ensures ProfilesOnly(request, seen + events, p)
  {
    if Requested(request) == {} && request.proposals == {} {
      forall e | e in events
        ensures e.kind in {Metadata, RelayList}
      {}
    }
  }

  /** All that is promised of what a fetch from an honest relay has `seen` and reports. */
  ghost predicate FromHonest(parse: Parser, request: FetchRequest, relay: set<Event>, seen: set<Event>,
      report: FetchReport)
  {
    && ReportOf(parse, request, seen, report)
    && Answered(relay, seen, Known(request, report), request.proposals + report.proposals,
         Wanted(request, report, seen))
    && (forall s | CrossClosed(parse, request, relay, s) :: Known(request, report) <= s)
    && exists k :: OutcomeAt(parse, request, relay, seen, report, k)
  }

  lemma {:induction false} HonestEnd(parse: Parser, request: FetchRequest, relay: set<Event>, seen: set<Event>,
      p: Progress, k: nat)
    requires Underway(parse, request, relay, true, seen, p) && OutcomeAt(parse, request, relay, seen, p.report, k)
    requires p.coordinates == {} && p.roots == {} && p.profiles == {}
    ensures FromHonest(parse, request, relay, seen, p.report)
  {
    AllAnswered(parse, request, relay, true, seen, p);
  }

  /** `fetch_all_from_relay`. Each answer is any part of what the relay holds, requested or not; an honest relay leaves
      out nothing that matches. `seen` is everything processed, as saved in the local cache. */
  method FetchAllFromRelay(parse: Parser, request: FetchRequest, relay: set<Event>, honest: bool,
      ghost rank: map<EventId, nat>)
    returns (report: FetchReport, seen: set<Event>)
    requires Acyclic(relay, request.proposals, rank)
    ensures seen <= relay && ReportOf(parse, request, seen, report) && RepliesReported(request, seen, report)
    ensures forall s | CrossClosed(parse, request, relay, s) :: Known(request, report) <= s
    ensures Requested(request) == {} && request.proposals == {} ==> forall e | e in seen ::
      e.kind in {Metadata, RelayList}
    ensures forall e | e in seen ::
      AskedFor(Known(request, report), request.proposals + report.proposals, Wanted(request, report, seen), e)
    ensures honest ==> FromHonest(parse, request, relay, seen, report)
  {
    var now := Start(request);
    seen := {};
    Starts(parse, request, relay, honest, now);
    RunStarts(parse, request, relay);
    ghost var k := 0;
    while true
      invariant Underway(parse, request, relay, honest, seen, now) && Acyclic(relay, now.roots, rank)
      invariant RepliesReported(request, seen, now.report) && ProfilesOnly(request, seen, now)
      invariant OnTrack(request, seen, now)
      invariant honest ==> RunsTo(parse, request, relay, seen, now, k)
      decreases |Undiscovered(parse, request, relay, now.report)|, now.coordinates != {},
        |Above(relay, rank, now.roots)|
    {
      var p, processed := FetchRound(parse, request, relay, honest, now, seen);
      RoundKept(parse, request, relay, honest, rank, seen, now, processed, p);
      RoundStaysOnTrack(parse, request, relay, honest, seen, now, processed, p);
      if honest {
        RunGoesOn(parse, request, relay, seen, now, processed, p, k);
      }
      k := k + 1;
      seen := seen + processed;
      if p.coordinates == {} && p.roots == {} && p.profiles == {} {
        report := p.report;
        if honest {
          HonestEnd(parse, request, relay, seen, p, k);
        }
        return;
      }
      now := p;
    }
  }

  /** Everything a round keeps, and its progress. */
  lemma {:induction false} RoundKept(parse: Parser, request: FetchRequest, relay: set<Event>, honest: bool,
      rank: map<EventId, nat>, seen: set<Event>, now: Progress, events: set<Event>, p: Progress)
    requires Underway(parse, request, relay, honest, seen, now) && Acyclic(relay, now.roots, rank)
    requires RepliesReported(request, seen, now.report) && ProfilesOnly(request, seen, now)
    requires IsRound(parse, request, relay, honest, now.report, seen, now, events, p)
    ensures Underway(parse, request, relay, honest, seen + events, p)
    ensures RepliesReported(request, seen + events, p.report) && ProfilesOnly(request, seen + events, p)
    ensures p.coordinates != {} || p.roots != {} || p.profiles != {} ==>
      && Acyclic(relay, p.roots, rank)
      && (|Undiscovered(parse, request, relay, p.report)| < |Undiscovered(parse, request, relay, now.report)|
          || (p.coordinates == {} && |Undiscovered(parse, request, relay, p.report)| ==
            |Undiscovered(parse, request, relay, now.report)|
              && (now.coordinates != {} || |Above(relay, rank, p.roots)| < |Above(relay, rank, now.roots)|)))
  {
    hide *;
    RoundKeeps(parse, request, relay, honest, seen, now, events, p);
    RoundReplies(parse, request, relay, honest, now.report, seen, now, events, p);
    RoundKeepsProfilesOnly(parse, request, relay, honest, seen, now, events, p);
    if p.coordinates != {} || p.roots != {} || p.profiles != {} {
      RoundAdvances(parse, request, relay, honest, rank, seen, now, events, p);
    }
  }
}
