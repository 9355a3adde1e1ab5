/** What a fetch from an honest relay discovers: one outcome for each request and relay, and when it is exact. */
module Discovery {
  import opened Wrappers
  import opened Events
  import opened Reports
  import opened Fetch

  // ---------------------------------------------------------------- one outcome

  lemma {:induction false} SettlesOnce(parse: Parser, request: FetchRequest, relay: set<Event>, k1: nat, k2: nat)
    requires SettlesAt(parse, request, relay, k1) && SettlesAt(parse, request, relay, k2)
    ensures k1 == k2
  {}

  /** Two fetches from the same honest relay for the same request see the same events and report the same, commits
      and statuses included; announcement updates are the same entries. */
  lemma {:induction false} HonestRunsAgree(parse: Parser, request: FetchRequest, relay: set<Event>, seen1: set<Event>,
      report1: FetchReport, seen2: set<Event>, report2: FetchReport)
    requires FromHonest(parse, request, relay, seen1, report1) && FromHonest(parse, request, relay, seen2, report2)
    ensures seen1 == seen2 && report1.(updatedAnnouncements := []) == report2.(updatedAnnouncements := [])
    ensures Elements(report1.updatedAnnouncements) == Elements(report2.updatedAnnouncements)
  {
    var k1 :| OutcomeAt(parse, request, relay, seen1, report1, k1);
    var k2 :| OutcomeAt(parse, request, relay, seen2, report2, k2);
    SettlesOnce(parse, request, relay, k1, k2);
    ReportDetermined(parse, request, seen1, report1, report2);
  }

  lemma {:induction false} BestExists(base: Option<Stamp>, stamps: set<Stamp>) returns (best: Option<Stamp>)
    ensures StateIsBest(base, stamps, best)
  {
    if stamps == {} {
      return None;
    }
    var s :| s in stamps;
    var rest := BestExists(base, stamps - {s});
    NextStateIsBest(base, stamps - {s}, rest, s);
    assert stamps - {s} + {s} == stamps;
    return NextState(base, rest, s);
  }

  lemma {:induction false} Listable(updates: set<Update>) returns (list: seq<Update>)
    ensures Elements(list) == updates
  {
    if updates == {} {
      return [];
    }
    var u :| u in updates;
    list := Listable(updates - {u});
    assert Elements(list + [u]) == Elements(list) + {u};
    return list + [u];
  }

  /** An honest relay can answer every round. */
  lemma {:induction false} RoundExists(parse: Parser, request: FetchRequest, relay: set<Event>, seen: set<Event>,
      now: Progress)
    returns (p: Progress)
    requires ReportOf(parse, request, seen, now.report)
    ensures IsRound(parse, request, relay, true, now.report, seen, now, Asked(relay, StageOf(seen, now)), p)
  {
    var events := Asked(relay, StageOf(seen, now));
    var next := Next(parse, request, relay, StageOf(seen, now));
    var all := seen + events;
    var best := BestExists(request.state, States(request, all));
    var updates := Listable(set e, u | e in all && u in UpdateOf(request, e) :: u);
    var report := FetchReport(next.known, updates, best, next.proposals, next.commits, next.statuses,
                              set e, p | e in all && p in NewProfileOf(request, e) :: p,
                              set e, p | e in all && p in ProfileUpdateOf(request, e) :: p);
    p := Progress(report, next.coordinates, next.roots, next.profiles);
  }

  /** Every request has an outcome from every relay. */
  lemma {:induction false} HonestRunExists(parse: Parser, request: FetchRequest, relay: set<Event>,
      rank: map<EventId, nat>)
    returns (seen: set<Event>, report: FetchReport)
    requires Acyclic(relay, request.proposals, rank)
    ensures FromHonest(parse, request, relay, seen, report)
  {
    var now, k := Start(request), 0;
    seen := {};
    Starts(parse, request, relay, true, now);
    RunStarts(parse, request, relay);
    while true
      invariant Underway(parse, request, relay, true, seen, now) && Acyclic(relay, now.roots, rank)
      invariant RepliesReported(request, seen, now.report) && ProfilesOnly(request, seen, now)
      invariant RunsTo(parse, request, relay, seen, now, k)
      decreases |Undiscovered(parse, request, relay, now.report)|, now.coordinates != {},
        |Above(relay, rank, now.roots)|
    {
      var p := RoundExists(parse, request, relay, seen, now);
      var processed := Asked(relay, StageOf(seen, now));
      RoundKept(parse, request, relay, true, rank, seen, now, processed, p);
      RunGoesOn(parse, request, relay, seen, now, processed, p, k);
      k, seen := k + 1, seen + processed;
      if p.coordinates == {} && p.roots == {} && p.profiles == {} {
        HonestEnd(parse, request, relay, seen, p, k);
        return seen, p.report;
      }
      now := p;
    }
  }

  // ---------------------------------------------------------------- a state that is not reported

  const FIRST_STATE := Event("a", "k", 1, GitState, [["d", "repo"]], "")

  /** A request for a repository of which no state is cached. */
  const FIRST_FETCH := FetchRequest([(Coordinate("k", "repo"), None)], None, {}, {}, {}, {}, map[])

  /** From an honest relay that has a state of that repository, it gets the state event and reports none. */
  lemma {:induction false} FirstStateUnreported(parse: Parser) returns (seen: set<Event>, report: FetchReport)
    ensures FromHonest(parse, FIRST_FETCH, {FIRST_STATE}, seen, report)
    ensures FIRST_STATE in seen && StampOf(FIRST_STATE) in States(FIRST_FETCH, seen) && report.updatedState.None?
  {
    FirstStateAsked();
    seen, report := HonestRunExists(parse, FIRST_FETCH, {FIRST_STATE}, map["a" := 0]);
    StateSeen(parse, FIRST_FETCH, {FIRST_STATE}, seen, report, Coordinate("k", "repo"), FIRST_STATE);
  }

  lemma {:induction false} FirstStateAsked()
    ensures Coordinate("k", "repo") in Requested(FIRST_FETCH)
    ensures AsksFor(Coordinate("k", "repo"), FIRST_STATE)
    ensures Acyclic({FIRST_STATE}, FIRST_FETCH.proposals, map["a" := 0])
  {
    var c := Coordinate("k", "repo");
    assert FIRST_FETCH.coordinates[0].0 == c;
    var tag := ["d", "repo"];
    assert FIRST_STATE.tags == [tag] && [tag][1..] == [] && "d"[0] == 'd' && "e"[0] == 'e';
    forall id
      ensures !Mentions(FIRST_STATE, id)
    {
      assert !Tagged([tag], "e", id);
    }
    assert Tagged(FIRST_STATE.tags, "d", "repo") && "repo" in StateFilter({c}).identifiers.value;
  }

  lemma {:induction false} StateSeen(parse: Parser, request: FetchRequest, relay: set<Event>, seen: set<Event>,
      report: FetchReport, c: Coordinate, e: Event)
    requires FromHonest(parse, request, relay, seen, report) && c in Requested(request) && request.state.None?
    requires e in relay && AsksFor(c, e) && e.kind == GitState && IsNew(request, e)
    ensures e in seen && StampOf(e) in States(request, seen) && report.updatedState.None?
  {}

  // ---------------------------------------------------------------- exact for one identifier

  /** Announcements on the relay have one name, the one they are parsed with. */
  ghost predicate SinglyNamed(parse: Parser, relay: set<Event>) {
    forall e, name | e in relay && e.kind == GitRepoAnnouncement && parse(e).Some? && Tagged(e.tags, "d", name) ::
      name == parse(e).value.identifier
  }

  ghost predicate OneIdentifier(coordinates: set<Coordinate>, identifier: string) {
    forall c | c in coordinates :: c.identifier == identifier
  }

  /** The least set that has what was requested and is closed under the new, parseable announcements by its members. */
  ghost predicate IsLeastClosed(parse: Parser, request: FetchRequest, relay: set<Event>, s: set<Coordinate>) {
    && Closed(parse, request, relay, s)
    && forall t | Closed(parse, request, relay, t) :: s <= t
  }

  lemma {:induction false} DiscoveredClosed(parse: Parser, request: FetchRequest, relay: set<Event>, seen: set<Event>,
      report: FetchReport)
    requires FromHonest(parse, request, relay, seen, report)
    ensures Closed(parse, request, relay, Known(request, report))
  {
    forall c, e | c in Known(request, report) && e in relay && IsAnnouncementOf(e, c)
      ensures Listed(parse, request, e) <= Known(request, report)
    {
      assert c.identifier in RepoFilter({c}).identifiers.value;
      assert AsksFor(c, e);
    }
  }

  lemma {:induction false} DiscoveredWithin(parse: Parser, request: FetchRequest, relay: set<Event>, seen: set<Event>,
      report: FetchReport, s: set<Coordinate>)
    requires FromHonest(parse, request, relay, seen, report) && CrossClosed(parse, request, relay, s)
    ensures Known(request, report) <= s
  {}

  lemma {:induction false} LeastDiscovered(parse: Parser, request: FetchRequest, relay: set<Event>, identifier: string,
      seen: set<Event>, report: FetchReport)
    requires SinglyNamed(parse, relay) && OneIdentifier(Requested(request), identifier)
    requires FromHonest(parse, request, relay, seen, report)
    ensures IsLeastClosed(parse, request, relay, Known(request, report))
  {
    DiscoveredClosed(parse, request, relay, seen, report);
    forall s | Closed(parse, request, relay, s)
      ensures Known(request, report) <= s
    {
      NamedAlikeCrossClosed(parse, request, relay, identifier, s);
      DiscoveredWithin(parse, request, relay, seen, report, set c | c in s && c.identifier == identifier);
    }
  }

  /** Under one identifier, being closed is being closed under all that the filters match. */
  lemma {:induction false} NamedAlikeCrossClosed(parse: Parser, request: FetchRequest, relay: set<Event>,
      identifier: string, s: set<Coordinate>)
    requires SinglyNamed(parse, relay) && OneIdentifier(Requested(request), identifier) &&
      Closed(parse, request, relay, s)
    ensures CrossClosed(parse, request, relay, set c | c in s && c.identifier == identifier)
  {
    var named := set c | c in s && c.identifier == identifier;
    forall a, b, e | a in named && b in named && e in relay && e.kind == GitRepoAnnouncement
                     && e.pubkey == a.pubkey && Tagged(e.tags, "d", b.identifier)
      ensures Listed(parse, request, e) <= named
    {
      assert IsAnnouncementOf(e, a);
    }
  }

  // ---------------------------------------------------------------- inexact for two

  lemma {:induction false} Longest(names: set<string>) returns (n: nat)
    ensures forall name | name in names :: |name| <= n
  {
    if names == {} {
      return 0;
    }
    var name :| name in names;
    var rest := Longest(names - {name});
    return if |name| > rest then |name| else rest;
  }

  function Name(n: nat): (name: string)
    ensures |name| == n
  {
    seq(n, i => 'x')
  }

  /** Two requested coordinates, an identifier that the second does not have, and the length of names that the request
      does not hold. */
  datatype Trap = Trap(first: Coordinate, second: Coordinate, name: string, unused: nat) {
    function Key(i: nat): PublicKey {
      Name(unused + i)
    }

    function Announce(i: nat, key: PublicKey, identifier: string, name: string): Event {
      Event(Name(unused + i), key, 0, GitRepoAnnouncement, [["d", identifier], ["d", name]], "")
    }

    /** The first coordinate's owner, by an announcement that is parsed under `name`, lists key 1. */
    function First(): Event {
      Announce(1, first.pubkey, first.identifier, name)
    }

    /** The second's lists key 2. */
    function Second(): Event {
      Announce(2, second.pubkey, second.identifier, second.identifier)
    }

    /** Key 1 announces under the second identifier, under which nobody names it, and lists key 3. */
    function Third(): Event {
      Announce(3, Key(1), second.identifier, second.identifier)
    }

    function Relay(): set<Event> {
      {First(), Second(), Third()}
    }

    function Parse(e: Event): Option<Listing> {
      if e == First() then Some(Listing(name, [Key(1)]))
      else if e == Second() then Some(Listing(second.identifier, [Key(2)]))
      else if e == Third() then Some(Listing(second.identifier, [Key(3)]))
      else None
    }

    ghost predicate Valid(request: FetchRequest) {
      && first in Requested(request) && second in Requested(request) && name != second.identifier
      && (forall c | c in Requested(request) :: |c.pubkey| <= unused)
      && (forall id | id in request.existingEvents :: |id| <= unused)
    }

    /** What the first two lead to. */
    function Found(): set<Coordinate> {
      {Coordinate(Key(1), name), Coordinate(Key(2), second.identifier)}
    }

    function Overreached(): Coordinate {
      Coordinate(Key(3), second.identifier)
    }
  }

  lemma {:induction false} TwoTags(a: Tag, b: Tag, name: string, value: string)
    requires |a| == |b| == 2
    ensures Tagged([a, b], name, value) <==> (name == a[0] && value == a[1]) || (name == b[0] && value == b[1])
  {
    assert [a, b][1..] == [b] && [b][1..] == [];
    assert Tagged([b], name, value) <==> name == b[0] && value == b[1];
  }

  lemma {:induction false} TrapTagged(trap: Trap, e: Event, name: string)
    requires e in trap.Relay()
    ensures Tagged(e.tags, "d", name) <==> name == e.tags[0][1] || name == e.tags[1][1]
    ensures !Tagged(e.tags, "e", name)
  {
    TwoTags(e.tags[0], e.tags[1], "d", name);
    TwoTags(e.tags[0], e.tags[1], "e", name);
    assert e.tags == [e.tags[0], e.tags[1]];
    assert "d"[0] == 'd' && "e"[0] == 'e';
  }

  lemma {:induction false} TrapFair(trap: Trap, request: FetchRequest) returns (rank: map<EventId, nat>)
    ensures Acyclic(trap.Relay(), request.proposals, rank)
    ensures trap.name == trap.first.identifier ==> SinglyNamed(trap.Parse, trap.Relay())
  {
    var ids := set e | e in trap.Relay() :: e.id;
    rank := map id | id in ids + request.proposals :: 0;
    forall e, name | e in trap.Relay()
      ensures (Tagged(e.tags, "d", name) <==> name == e.tags[0][1] || name == e.tags[1][1]) && !Mentions(e, name)
    {
      TrapTagged(trap, e, name);
    }
  }

  lemma {:induction false} OneListed(parse: Parser, request: FetchRequest, e: Event, key: PublicKey, name: string)
    requires parse(e) == Some(Listing(name, [key])) && IsNew(request, e) && e.kind == GitRepoAnnouncement
    ensures Listed(parse, request, e) == {Coordinate(key, name)}
  {
    assert forall m :: m in [key] <==> m == key;
  }

  lemma {:induction false} TrapListed(trap: Trap, request: FetchRequest, e: Event)
    requires trap.Valid(request) && e in trap.Relay()
    ensures e == trap.First() ==> Listed(trap.Parse, request, e) == {Coordinate(trap.Key(1), trap.name)}
    ensures e == trap.Second() ==> Listed(trap.Parse, request, e) == {Coordinate(trap.Key(2), trap.second.identifier)}
    ensures e == trap.Third() ==> Listed(trap.Parse, request, e) == {trap.Overreached()}
  {
    assert |trap.First().id| == trap.unused + 1 && |trap.Second().id| == trap.unused + 2;
    assert |trap.Third().id| == trap.unused + 3 && IsNew(request, e);
    if e == trap.First() {
      OneListed(trap.Parse, request, e, trap.Key(1), trap.name);
    } else if e == trap.Second() {
      OneListed(trap.Parse, request, e, trap.Key(2), trap.second.identifier);
    } else {
      OneListed(trap.Parse, request, e, trap.Key(3), trap.second.identifier);
    }
  }

  lemma {:induction false} TrapClosed(trap: Trap, request: FetchRequest)
    requires trap.Valid(request)
    ensures Closed(trap.Parse, request, trap.Relay(), Requested(request) + trap.Found())
    ensures trap.Overreached() !in Requested(request) + trap.Found()
  {
    forall c, e | c in Requested(request) + trap.Found() && e in trap.Relay() && IsAnnouncementOf(e, c)
      ensures Listed(trap.Parse, request, e) <= Requested(request) + trap.Found()
    {
      TrapTagged(trap, e, c.identifier);
      TrapListed(trap, request, e);
    }
  }

  /** An announcement on the relay is asked for when its author and its identifier are, together or not. */
  lemma {:induction false} TrapAsked(trap: Trap, s: Stage, e: Event, a: Coordinate, b: Coordinate)
    requires e in trap.Relay() && a in s.coordinates && b in s.coordinates
    requires a.pubkey == e.pubkey && b.identifier == e.tags[0][1]
    ensures e in Asked(trap.Relay(), s)
  {
    TrapTagged(trap, e, b.identifier);
    AnnouncementsAsked(s.coordinates, s.roots, s.profiles, e);
  }

  lemma {:induction false} TrapNotAsked(trap: Trap, s: Stage, e: Event)
    requires e in trap.Relay() && forall c | c in s.coordinates :: c.pubkey != e.pubkey
    ensures e !in Asked(trap.Relay(), s)
  {
    AnnouncementsAsked(s.coordinates, s.roots, s.profiles, e);
  }

  lemma {:induction false} TrapFirstAsked(trap: Trap, request: FetchRequest, s: Stage)
    requires trap.Valid(request) && s.coordinates == Requested(request)
    ensures Asked(trap.Relay(), s) == {trap.First(), trap.Second()}
  {
    TrapAsked(trap, s, trap.First(), trap.first, trap.first);
    TrapAsked(trap, s, trap.Second(), trap.second, trap.second);
    TrapNotAsked(trap, s, trap.Third());
  }

  lemma {:induction false} TrapFirstFound(trap: Trap, request: FetchRequest)
    requires trap.Valid(request)
    ensures AllListed(trap.Parse, request, {trap.First(), trap.Second()}) == trap.Found()
    ensures trap.Found() !! Requested(request)
  {
    TrapListed(trap, request, trap.First());
    TrapListed(trap, request, trap.Second());
    AllListedOfTwo(trap.Parse, request, trap.First(), trap.Second());
  }

  lemma {:induction false} AllListedOfTwo(parse: Parser, request: FetchRequest, e1: Event, e2: Event)
    ensures AllListed(parse, request, {e1, e2}) == Listed(parse, request, e1) + Listed(parse, request, e2)
  {}

  lemma {:induction false} TrapFirstRound(trap: Trap, request: FetchRequest)
    requires trap.Valid(request)
    ensures var s := After(trap.Parse, request, trap.Relay(), 1);
      s.coordinates == trap.Found() && s.known == trap.Found()
  {
    var start := StageOf({}, Start(request));
    TrapFirstAsked(trap, request, start);
    TrapFirstFound(trap, request);
    AfterNext(trap.Parse, request, trap.Relay(), 0);
    assert After(trap.Parse, request, trap.Relay(), 0) == start;
  }

  lemma {:induction false} TrapSprings(trap: Trap, request: FetchRequest, s: Stage)
    requires trap.Valid(request)
    requires s.coordinates == s.known == trap.Found()
    ensures var next := Next(trap.Parse, request, trap.Relay(), s);
      trap.Overreached() in next.coordinates && trap.Overreached() in next.known
  {
    TrapAsked(trap, s, trap.Third(), Coordinate(trap.Key(1), trap.name),
      Coordinate(trap.Key(2), trap.second.identifier));
    TrapListed(trap, request, trap.Third());
    TrapClosed(trap, request);
    assert trap.Overreached() in AllListed(trap.Parse, request, Asked(trap.Relay(), s));
  }

  lemma {:induction false} TrapSecondRound(trap: Trap, request: FetchRequest)
    requires trap.Valid(request)
    ensures var s := After(trap.Parse, request, trap.Relay(), 2);
      trap.Overreached() in s.coordinates && trap.Overreached() in s.known
  {
    hide *;
    TrapFirstRound(trap, request);
    AfterNext(trap.Parse, request, trap.Relay(), 1);
    TrapSprings(trap, request, After(trap.Parse, request, trap.Relay(), 1));
  }

  lemma {:induction false} NextKnowsMore(parse: Parser, request: FetchRequest, relay: set<Event>, s: Stage)
    ensures s.known <= Next(parse, request, relay, s).known
  {}

  lemma {:induction false} AfterNext(parse: Parser, request: FetchRequest, relay: set<Event>, k: nat)
    ensures After(parse, request, relay, k + 1) == Next(parse, request, relay, After(parse, request, relay, k))
  {}

  lemma {:induction false} KnownGrows(parse: Parser, request: FetchRequest, relay: set<Event>, j: nat, k: nat)
    requires j <= k
    ensures After(parse, request, relay, j).known <= After(parse, request, relay, k).known
  {
    hide *;
    if j < k {
      KnownGrows(parse, request, relay, j, k - 1);
      AfterNext(parse, request, relay, k - 1);
      NextKnowsMore(parse, request, relay, After(parse, request, relay, k - 1));
    }
  }

  /** The fetch goes on after the second round. */
  lemma {:induction false} TrapOutcome(trap: Trap, request: FetchRequest, seen: set<Event>, report: FetchReport)
    returns (k: nat)
    requires trap.Valid(request) && FromHonest(trap.Parse, request, trap.Relay(), seen, report)
    ensures k > 2 && OutcomeAt(trap.Parse, request, trap.Relay(), seen, report, k)
  {
    k :| OutcomeAt(trap.Parse, request, trap.Relay(), seen, report, k);
    TrapFirstRound(trap, request);
    TrapSecondRound(trap, request);
    hide Next, After;
    NotSettled(trap.Parse, request, trap.Relay(), seen, report, k, 1, Coordinate(trap.Key(1), trap.name));
    NotSettled(trap.Parse, request, trap.Relay(), seen, report, k, 2, trap.Overreached());
  }

  lemma {:induction false} NotSettled(parse: Parser, request: FetchRequest, relay: set<Event>, seen: set<Event>,
      report: FetchReport, k: nat, j: nat, c: Coordinate)
    requires OutcomeAt(parse, request, relay, seen, report, k) && c in After(parse, request, relay, j).coordinates
    ensures k != j && k >= 1
  {
    hide After;
  }

  lemma {:induction false} KnownAtEnd(parse: Parser, request: FetchRequest, relay: set<Event>, seen: set<Event>,
      report: FetchReport, k: nat)
    requires OutcomeAt(parse, request, relay, seen, report, k)
    ensures After(parse, request, relay, k).known <= Known(request, report)
  {
    hide After;
  }

  lemma {:induction false} NotLeast(parse: Parser, request: FetchRequest, relay: set<Event>, s: set<Coordinate>,
      t: set<Coordinate>, c: Coordinate)
    requires c in s && c !in t && Closed(parse, request, relay, t)
    ensures !IsLeastClosed(parse, request, relay, s)
  {}

  /** Fetching from the trap finds a coordinate that no announcement by a member leads to. */
  lemma {:induction false} TrapOverreaches(trap: Trap, request: FetchRequest, seen: set<Event>, report: FetchReport)
    requires trap.Valid(request) && FromHonest(trap.Parse, request, trap.Relay(), seen, report)
    ensures !IsLeastClosed(trap.Parse, request, trap.Relay(), Known(request, report))
  {
    hide *;
    var k := TrapOutcome(trap, request, seen, report);
    TrapSecondRound(trap, request);
    KnownGrows(trap.Parse, request, trap.Relay(), 2, k);
    KnownAtEnd(trap.Parse, request, trap.Relay(), seen, report, k);
    TrapClosed(trap, request);
    NotLeast(trap.Parse, request, trap.Relay(), Known(request, report), Requested(request) + trap.Found(),
      trap.Overreached());
  }

  lemma {:induction false} TrapAt(request: FetchRequest, first: Coordinate, second: Coordinate, name: string)
    returns (trap: Trap)
    requires first in Requested(request) && second in Requested(request) && name != second.identifier
    ensures trap.Valid(request) && trap.first == first && trap.name == name
  {
    var names := (set c | c in Requested(request) :: c.pubkey) + request.existingEvents;
    var n := Longest(names);
    trap := Trap(first, second, name, n);
    forall c | c in Requested(request)
      ensures |c.pubkey| <= n
    {
      assert c.pubkey in names;
    }
  }

  lemma {:induction false} TwoIdentifiers(request: FetchRequest) returns (first: Coordinate, second: Coordinate)
    requires forall identifier :: !OneIdentifier(Requested(request), identifier)
    ensures first in Requested(request) && second in Requested(request) && first.identifier != second.identifier
  {
    assert !OneIdentifier(Requested(request), "");
    first :| first in Requested(request);
    assert !OneIdentifier(Requested(request), first.identifier);
    second :| second in Requested(request) && second.identifier != first.identifier;
  }

  /** Whatever fair relay answers, what becomes known is exactly what the announcements by members lead to. */
  ghost predicate DiscoversExactly(request: FetchRequest) {
    forall parse: Parser, relay, seen, report | SinglyNamed(parse, relay) &&
      FromHonest(parse, request, relay, seen, report) ::
      IsLeastClosed(parse, request, relay, Known(request, report))
  }

  lemma {:induction false} ExactForOne(request: FetchRequest, identifier: string)
    requires OneIdentifier(Requested(request), identifier)
    ensures DiscoversExactly(request)
  {
    forall parse: Parser, relay, seen, report | SinglyNamed(parse, relay) &&
      FromHonest(parse, request, relay, seen, report)
      ensures IsLeastClosed(parse, request, relay, Known(request, report))
    {
      LeastDiscovered(parse, request, relay, identifier, seen, report);
    }
  }

  lemma {:induction false} NotExact(parse: Parser, request: FetchRequest, relay: set<Event>, seen: set<Event>,
      report: FetchReport)
    requires SinglyNamed(parse, relay) && FromHonest(parse, request, relay, seen, report)
    requires !IsLeastClosed(parse, request, relay, Known(request, report))
    ensures !DiscoversExactly(request)
  {}

  /** Discovery is exact on every honest relay with singly named announcements if and only if the requested coordinates
      share their identifier. */
  lemma {:induction false} DiscoveryExact(request: FetchRequest)
    ensures DiscoversExactly(request) <==> exists identifier :: OneIdentifier(Requested(request), identifier)
  {
    hide *;
    if identifier :| OneIdentifier(Requested(request), identifier) {
      ExactForOne(request, identifier);
    } else {
      var first, second := TwoIdentifiers(request);
      var trap := TrapAt(request, first, second, first.identifier);
      var rank := TrapFair(trap, request);
      var seen, report := HonestRunExists(trap.Parse, request, trap.Relay(), rank);
      TrapOverreaches(trap, request, seen, report);
      NotExact(trap.Parse, request, trap.Relay(), seen, report);
    }
  }

  // ---------------------------------------------------------------- announcements with several identifiers

  /** On any honest relay: what becomes known is closed under the announcements by its members, and is within every
      set that is closed under those by a member's key with a member's identifier. */
  lemma {:induction false} DiscoveredBetween(parse: Parser, request: FetchRequest, relay: set<Event>, seen: set<Event>,
      report: FetchReport)
    requires FromHonest(parse, request, relay, seen, report)
    ensures Closed(parse, request, relay, Known(request, report))
    ensures forall s | CrossClosed(parse, request, relay, s) :: Known(request, report) <= s
    ensures forall s | IsLeastClosed(parse, request, relay, s) && CrossClosed(parse, request, relay, s) ::
      Known(request, report) == s
  {
    DiscoveredClosed(parse, request, relay, seen, report);
    forall s | CrossClosed(parse, request, relay, s)
      ensures Known(request, report) <= s
    {
      DiscoveredWithin(parse, request, relay, seen, report, s);
    }
  }

  ghost predicate DiscoversExactlyAnywhere(request: FetchRequest) {
    forall parse: Parser, relay, seen, report | FromHonest(parse, request, relay, seen, report) ::
      IsLeastClosed(parse, request, relay, Known(request, report))
  }

  lemma {:induction false} NotExactAnywhere(parse: Parser, request: FetchRequest, relay: set<Event>, seen: set<Event>,
      report: FetchReport)
    requires FromHonest(parse, request, relay, seen, report)
    requires !IsLeastClosed(parse, request, relay, Known(request, report))
    ensures !DiscoversExactlyAnywhere(request)
  {}

  lemma {:induction false} NothingDiscovered(parse: Parser, request: FetchRequest, relay: set<Event>, seen: set<Event>,
      report: FetchReport)
    requires Requested(request) == {} && FromHonest(parse, request, relay, seen, report)
    ensures IsLeastClosed(parse, request, relay, Known(request, report))
  {
    assert CrossClosed(parse, request, relay, {});
    DiscoveredWithin(parse, request, relay, seen, report, {});
  }

  /** One coordinate is enough to go wrong if an announcement may have two identifiers: it is found by one and parsed
      by the other, and the key it lists is then asked for under the first. */
  lemma {:induction false} TwoNamesMislead(request: FetchRequest, c: Coordinate)
    requires c in Requested(request)
    ensures !DiscoversExactlyAnywhere(request)
  {
    hide *;
    var name := c.identifier + "x";
    assert |name| != |c.identifier|;
    var trap := TrapAt(request, c, c, name);
    var rank := TrapFair(trap, request);
    var seen, report := HonestRunExists(trap.Parse, request, trap.Relay(), rank);
    TrapOverreaches(trap, request, seen, report);
    NotExactAnywhere(trap.Parse, request, trap.Relay(), seen, report);
  }

  /** With such announcements, discovery is exact on every honest relay only if nothing is requested. */
  lemma {:induction false} DiscoveryExactAnywhere(request: FetchRequest)
    ensures DiscoversExactlyAnywhere(request) <==> Requested(request) == {}
  {
    if c :| c in Requested(request) {
      TwoNamesMislead(request, c);
    } else {
      forall parse: Parser, relay, seen, report | FromHonest(parse, request, relay, seen, report)
        ensures IsLeastClosed(parse, request, relay, Known(request, report))
      {
        NothingDiscovered(parse, request, relay, seen, report);
      }
    }
  }
}
