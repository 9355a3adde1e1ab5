/** The repository as the caches know it: who maintains it, and which announcements say so. */
module Maintainers {
  import opened Wrappers
  import opened Events
  import opened Reports
  import opened Fetch

  /** The announcements, for one identifier, that the source can parse. */
  predicate IsListing(parse: Parser, identifier: string, e: Event) {
    e.kind == GitRepoAnnouncement && Tagged(e.tags, "d", identifier) && parse(e).Some?
  }

  function MaintainersIn(parse: Parser, e: Event): set<PublicKey> {
    if parse(e).Some? then set m | m in parse(e).value.maintainers else {}
  }

  /** Has the trusted maintainer, and whoever a parseable announcement by a member lists. */
  ghost predicate ClosedUnderListing(parse: Parser, trusted: Coordinate, cache: set<Event>, s: set<PublicKey>) {
    && trusted.pubkey in s
    && forall e | e in cache && e.pubkey in s && IsListing(parse, trusted.identifier, e) :: MaintainersIn(parse, e) <= s
  }

  /** The announcements of the members. */
  ghost function ListingsBy(parse: Parser, identifier: string, cache: set<Event>, s: set<PublicKey>): set<Event> {
    set e | e in cache && e.pubkey in s && IsListing(parse, identifier, e)
  }

  ghost function AllMaintainers(parse: Parser, cache: set<Event>): set<PublicKey> {
    set e, m | e in cache && m in MaintainersIn(parse, e) :: m
  }

  ghost predicate IsOldestOf(events: set<Event>, e: Event) {
    e in events && forall x | x in events :: e.createdAt <= x.createdAt
  }

  ghost predicate IsNewestOf(events: set<Event>, e: Event) {
    e in events && forall x | x in events :: x.createdAt <= e.createdAt
  }

  lemma {:induction false} SomeOldest(events: set<Event>) returns (e: Event)
    requires events != {}
    ensures IsOldestOf(events, e)
  {
    var first :| first in events;
    e := first;
    var rest := events - {first};
    assert forall x | x in events :: x == first || x in rest;
    if rest != {} {
      var older := SomeOldest(rest);
      if older.createdAt < first.createdAt {
        e := older;
      }
    }
  }

  /** Of the announcements that the repository may be read from, each is a newest one if and only if all are equally
      old. */
  lemma {:induction false} OldestIsNewestOf(events: set<Event>)
    ensures (forall e | IsOldestOf(events, e) :: IsNewestOf(events, e)) <==>
      forall a, b | a in events && b in events :: a.createdAt == b.createdAt
  {
    if events != {} {
      var e := SomeOldest(events);
    }
  }

  /** Two announcements by one maintainer: the second replaces the first. */
  const FIRST_LISTING := Event("a", "k", 1, GitRepoAnnouncement, [["d", "repo"]], "")

  const SECOND_LISTING := Event("b", "k", 2, GitRepoAnnouncement, [["d", "repo"]], "")

  /** The first is the one that the repository is read from. */
  lemma {:induction false} FirstListingIsRead(parse: Parser, e: Event)
    requires parse(FIRST_LISTING) == parse(SECOND_LISTING) == Some(Listing("repo", ["k"]))
    requires IsOldestOf(ListingsBy(parse, "repo", {FIRST_LISTING, SECOND_LISTING}, {"k"}), e)
    ensures e == FIRST_LISTING
    ensures IsNewestOf(ListingsBy(parse, "repo", {FIRST_LISTING, SECOND_LISTING}, {"k"}), SECOND_LISTING)
  {
    assert FIRST_LISTING.createdAt == 1 && SECOND_LISTING.createdAt == 2;
    assert IsListing(parse, "repo", FIRST_LISTING) && IsListing(parse, "repo", SECOND_LISTING);
  }

  datatype CachedRepo = CachedRepo(base: Event, maintainers: set<PublicKey>, events: map<Coordinate, Event>)

  datatype CacheError = NoAnnouncement

  /** Adds what one answer lists; `grew` tells whether it listed anybody new. */
  method AddMaintainers(listed: seq<PublicKey>, maintainers: set<PublicKey>)
    returns (maintainers': set<PublicKey>, grew: bool)
    ensures maintainers' == maintainers + set m | m in listed
    ensures grew <==> maintainers' != maintainers
  {
    maintainers', grew := maintainers, false;
    for k := 0 to |listed|
      invariant maintainers' == maintainers + set m | m in listed[..k]
      invariant grew <==> maintainers' != maintainers
    {
      assert listed[..k + 1] == listed[..k] + [listed[k]];
      if listed[k] !in maintainers' {
        grew := true;
      }
      maintainers' := maintainers' + {listed[k]};
    }
    assert listed[..|listed|] == listed;
  }

  ghost function ListedIn(parse: Parser, answer: seq<Event>): set<PublicKey> {
    set e, m | e in answer && m in MaintainersIn(parse, e) :: m
  }

  lemma {:induction false} ListedInSnoc(parse: Parser, answer: seq<Event>, e: Event)
    ensures ListedIn(parse, answer + [e]) == ListedIn(parse, answer) + MaintainersIn(parse, e)
  {}

  method AddListings(parse: Parser, answer: seq<Event>, maintainers: set<PublicKey>, repoEvents: seq<Event>)
    returns (maintainers': set<PublicKey>, repoEvents': seq<Event>, grew: bool)
    ensures maintainers' == maintainers + ListedIn(parse, answer)
    ensures forall e :: e in repoEvents' <==> (e in repoEvents || (e in answer && parse(e).Some?))
    ensures grew <==> maintainers' != maintainers
  {
    maintainers', repoEvents', grew := maintainers, repoEvents, false;
    for i := 0 to |answer|
      invariant maintainers' == maintainers + ListedIn(parse, answer[..i])
      invariant forall e :: e in repoEvents' <==> (e in repoEvents || (e in answer[..i] && parse(e).Some?))
      invariant grew <==> maintainers' != maintainers
    {
      var e := answer[i];
      assert answer[..i + 1] == answer[..i] + [e];
      ListedInSnoc(parse, answer[..i], e);
      var listing := parse(e);
      if listing.Some? {
        var more;
        maintainers', more := AddMaintainers(listing.value.maintainers, maintainers');
        grew := grew || more;
        repoEvents' := repoEvents' + [e];
      }
    }
    assert answer[..|answer|] == answer;
  }

  /** The answers of the global and, inside a repository, of the local cache. */
  method AskCaches(globalCache: set<Event>, localCache: Option<set<Event>>, filter: Filter) returns (answer: seq<Event>)
    ensures forall e :: e in answer <==> e in Cached(globalCache, localCache) && Matches(filter, e)
  {
    var fromGlobal := InAnyOrder(set e | e in globalCache && Matches(filter, e));
    var fromLocal := [];
    if localCache.Some? {
      fromLocal := InAnyOrder(set e | e in localCache.value && Matches(filter, e));
    }
    answer := fromGlobal + fromLocal;
  }

  function Cached(globalCache: set<Event>, localCache: Option<set<Event>>): set<Event> {
    globalCache + if localCache.Some? then localCache.value else {}
  }

  function CoordinatesOf(maintainers: set<PublicKey>, identifier: string): set<Coordinate> {
    set m | m in maintainers :: Coordinate(m, identifier)
  }

  /** The caches are asked for the announcements by the maintainers, and for no others. */
  lemma {:induction false} AskedForListings(maintainers: set<PublicKey>, identifier: string, e: Event)
    requires maintainers != {}
    ensures Matches(RepoFilter(CoordinatesOf(maintainers, identifier)), e) <==>
      e.kind == GitRepoAnnouncement && e.pubkey in maintainers && Tagged(e.tags, "d", identifier)
  {
    var filter := RepoFilter(CoordinatesOf(maintainers, identifier));
    var m :| m in maintainers;
    assert Coordinate(m, identifier) in CoordinatesOf(maintainers, identifier);
    assert filter.identifiers.value == {identifier};
    assert filter.authors.value == maintainers by {
      forall k | k in maintainers
        ensures k in filter.authors.value
      {
        assert Coordinate(k, identifier) in CoordinatesOf(maintainers, identifier);
      }
    }
  }

  /** Every set closed under listing has what a round adds to part of it. */
  lemma {:induction false} RoundWithin(parse: Parser, trusted: Coordinate, cache: set<Event>, s: set<PublicKey>,
      maintainers: set<PublicKey>, answer: seq<Event>)
    requires ClosedUnderListing(parse, trusted, cache, s) && maintainers <= s
    requires forall e | e in answer ::
      e in cache && e.kind == GitRepoAnnouncement && e.pubkey in maintainers && Tagged(e.tags, "d", trusted.identifier)
    ensures ListedIn(parse, answer) <= s
  {
    forall e | e in answer
      ensures MaintainersIn(parse, e) <= s
    {}
  }

  /** The loop of `get_repo_ref_from_cache`. */
  method FindMaintainers(parse: Parser, trusted: Coordinate, globalCache: set<Event>, localCache: Option<set<Event>>)
    returns (maintainers: set<PublicKey>, repoEvents: seq<Event>)
    ensures var cache := Cached(globalCache, localCache);
      && ClosedUnderListing(parse, trusted, cache, maintainers)
      && (forall s | ClosedUnderListing(parse, trusted, cache, s) :: maintainers <= s)
      && (forall e :: e in repoEvents <==> e in ListingsBy(parse, trusted.identifier, cache, maintainers))
  {
    ghost var cache := Cached(globalCache, localCache);
    maintainers, repoEvents := {trusted.pubkey}, [];
    while true
      invariant trusted.pubkey in maintainers && maintainers <= {trusted.pubkey} + AllMaintainers(parse, cache)
      invariant forall s | ClosedUnderListing(parse, trusted, cache, s) :: maintainers <= s
      invariant forall e | e in repoEvents :: e in ListingsBy(parse, trusted.identifier, cache, maintainers)
      decreases {trusted.pubkey} + AllMaintainers(parse, cache) - maintainers
    {
      var answer := AskCaches(globalCache, localCache, RepoFilter(CoordinatesOf(maintainers, trusted.identifier)));
      forall e
        ensures e in answer <==>
          e in cache && e.kind == GitRepoAnnouncement && e.pubkey in maintainers &&
          Tagged(e.tags, "d", trusted.identifier)
      {
        AskedForListings(maintainers, trusted.identifier, e);
      }
      forall s | ClosedUnderListing(parse, trusted, cache, s)
        ensures ListedIn(parse, answer) <= s
      {
        RoundWithin(parse, trusted, cache, s, maintainers, answer);
      }
      ghost var before := maintainers;
      var grew;
      maintainers, repoEvents, grew := AddListings(parse, answer, maintainers, repoEvents);
      if !grew {
        break;
      }
    }
  }

  /** `get_repo_ref_from_cache`: the maintainers are the least set that has the trusted one and is closed under
      listing; the rest of the repository is read from the oldest of their announcements, and each maintainer's
      oldest announcement is kept. It fails exactly when the trusted maintainer has no parseable announcement. */
  method GetRepoRefFromCache(parse: Parser, trusted: Coordinate, globalCache: set<Event>,
      localCache: Option<set<Event>>)
    returns (r: Result<CachedRepo, CacheError>)
    ensures var cache := Cached(globalCache, localCache);
      && (r.Err? <==> ListingsBy(parse, trusted.identifier, cache, {trusted.pubkey}) == {})
      && (r.Ok? ==>
            && ClosedUnderListing(parse, trusted, cache, r.value.maintainers)
            && (forall s | ClosedUnderListing(parse, trusted, cache, s) :: r.value.maintainers <= s)
            && IsOldestOf(ListingsBy(parse, trusted.identifier, cache, r.value.maintainers), r.value.base)
            && KeepsOldest(parse, trusted.identifier, cache, r.value.maintainers, r.value.events))
  {
    ghost var cache := Cached(globalCache, localCache);
    var maintainers, repoEvents := FindMaintainers(parse, trusted, globalCache, localCache);
    SortByTimeSorts(repoEvents);
    repoEvents := SortByTime(repoEvents);
    if repoEvents == [] {
      assert ListingsBy(parse, trusted.identifier, cache, {trusted.pubkey}) <=
        ListingsBy(parse, trusted.identifier, cache, maintainers);
      return Err(NoAnnouncement);
    }
    assert repoEvents[0] in ListingsBy(parse, trusted.identifier, cache, maintainers);
    NobodyWithoutListing(parse, trusted, cache, maintainers);
    var events := FirstOfEach(parse, trusted.identifier, cache, maintainers, repoEvents);
    return Ok(CachedRepo(repoEvents[0], maintainers, events));
  }

  /** Without an announcement by the trusted maintainer, nobody else is found. */
  lemma {:induction false} NobodyWithoutListing(parse: Parser, trusted: Coordinate, cache: set<Event>,
      maintainers: set<PublicKey>)
    requires forall s | ClosedUnderListing(parse, trusted, cache, s) :: maintainers <= s
    requires ListingsBy(parse, trusted.identifier, cache, maintainers) != {}
    ensures ListingsBy(parse, trusted.identifier, cache, {trusted.pubkey}) != {}
  {
    var alone := {trusted.pubkey};
    if ClosedUnderListing(parse, trusted, cache, alone) {
      var e :| e in ListingsBy(parse, trusted.identifier, cache, maintainers);
      assert e in ListingsBy(parse, trusted.identifier, cache, alone);
    } else {
      var e :| e in cache && e.pubkey in alone && IsListing(parse, trusted.identifier, e);
      assert e in ListingsBy(parse, trusted.identifier, cache, alone);
    }
  }

  /** One entry for each maintainer with an announcement: the oldest, under its own coordinate. */
  ghost predicate KeepsOldest(parse: Parser, identifier: string, cache: set<Event>, maintainers: set<PublicKey>,
      events: map<Coordinate, Event>)
  {
    && (forall c | c in events ::
          && c.pubkey in maintainers && c == Coordinate(events[c].pubkey, FirstIdentifier(events[c]))
          && IsOldestOf(ListingsBy(parse, identifier, cache, {c.pubkey}), events[c]))
    && (forall m | m in maintainers && ListingsBy(parse, identifier, cache, {m}) != {} :: exists c ::
      c in events && c.pubkey == m)
    && (forall c1, c2 | c1 in events && c2 in events && c1.pubkey == c2.pubkey :: c1 == c2)
  }

  /** The first `d` tag; announcements that were asked for by identifier have one. */
  function FirstIdentifier(e: Event): string {
    if TagValue(e.tags, "d").Some? then TagValue(e.tags, "d").value else ""
  }

  method FindBy(sorted: seq<Event>, m: PublicKey) returns (r: Option<Event>)
    requires InTimeOrder(sorted)
    ensures r.None? ==> forall e | e in sorted :: e.pubkey != m
    ensures r.Some? ==> r.value in sorted && r.value.pubkey == m && forall e | e in sorted && e.pubkey == m ::
      r.value.createdAt <= e.createdAt
  {
    for i := 0 to |sorted|
      invariant forall k | 0 <= k < i :: sorted[k].pubkey != m
    {
      if sorted[i].pubkey == m {
        return Some(sorted[i]);
      }
    }
    return None;
  }

  method FirstOfEach(parse: Parser, identifier: string, ghost cache: set<Event>, maintainers: set<PublicKey>,
      sorted: seq<Event>)
    returns (events: map<Coordinate, Event>)
    requires InTimeOrder(sorted)
    requires forall e :: e in sorted <==> e in ListingsBy(parse, identifier, cache, maintainers)
    ensures KeepsOldest(parse, identifier, cache, maintainers, events)
  {
    events := map[];
    var todo := maintainers;
    while todo != {}
      invariant todo <= maintainers && KeepsOldest(parse, identifier, cache, maintainers - todo, events)
    {
      var m :| m in todo;
      var found := FindBy(sorted, m);
      assert forall e :: e in ListingsBy(parse, identifier, cache, {m}) <==> e in sorted && e.pubkey == m;
      todo := todo - {m};
      if found.Some? {
        events := events[Coordinate(m, FirstIdentifier(found.value)) := found.value];
      }
    }
    assert maintainers - todo == maintainers;
  }
}
