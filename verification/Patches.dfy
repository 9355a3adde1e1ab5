/** Patch series: how a range of commits becomes a thread of events, and how the newest thread is
    recovered from an unordered collection of events. */
module Patches {
  import opened Wrappers
  import opened Text
  import opened Commits
  import opened Events

  datatype PatchError = NoPatches | NoTip | ProposalNotInCache

  // ---------------------------------------------------------------- the newest patch and its ancestors

  /** Ids are content hashes: they identify the event. */
  ghost predicate Authentic(patches: seq<Event>) {
    && (forall e | e in patches :: e.id != "")
    && (forall e, f | e in patches && f in patches && e.id == f.id :: e == f)
  }

  /** ... and no event can reply to its own descendant. */
  ghost predicate Descends(patches: seq<Event>, rank: map<EventId, nat>) {
    && (forall e | e in patches :: e.id in rank)
    && (forall e, f | e in patches && f in patches && ParentId(e) == Some(f.id) :: rank[f.id] < rank[e.id])
  }

  predicate RepliedTo(group: seq<Event>, e: Event) {
    exists i :: 0 <= i < |group| && ParentId(group[i]) == Some(e.id)
  }

  function FirstUnreplied(candidates: seq<Event>, group: seq<Event>): (r: Option<Event>)
    ensures r.Some? ==> r.value in candidates && !RepliedTo(group, r.value)
    ensures r.None? ==> forall e | e in candidates :: RepliedTo(group, e)
  {
    if candidates == [] then None
    else if !RepliedTo(group, candidates[0]) then Some(candidates[0])
    else FirstUnreplied(candidates[1..], group)
  }

  function FindById(events: seq<Event>, id: EventId): (r: Option<Event>)
    ensures r.Some? ==> r.value in events && r.value.id == id
    ensures r.None? ==> forall e | e in events :: e.id != id
  {
    if events == [] then None
    else if events[0].id == id then Some(events[0])
    else FindById(events[1..], id)
  }

  /** No patch is younger, and none of the same age replies to it. */
  ghost predicate IsTip(patches: seq<Event>, e: Event) {
    && e in patches
    && forall p | p in patches ::
      p.createdAt <= e.createdAt && (p.createdAt == e.createdAt ==> ParentId(p) != Some(e.id))
  }

  /** Each element is what the one before replies to; only the last may be a root. */
  ghost predicate Threaded(patches: seq<Event>, chain: seq<Event>) {
    && (forall i | 0 <= i < |chain| :: chain[i] in patches)
    && (forall i | 0 <= i < |chain| - 1 :: !IsPatchSetRoot(chain[i]) && ParentId(chain[i]) == Some(chain[i + 1].id))
  }

  ghost predicate StopsAt(patches: seq<Event>, e: Event) {
    || IsPatchSetRoot(e)
    || ParentId(e).None?
    || forall p | p in patches :: p.id != ParentId(e).value
  }

  ghost predicate Ancestry(patches: seq<Event>, chain: seq<Event>) {
    && chain != []
    && IsTip(patches, chain[0])
    && Threaded(patches, chain)
    && (forall i, j | 0 <= i < j < |chain| :: chain[i].id != chain[j].id)
    && StopsAt(patches, chain[|chain| - 1])
  }

  lemma {:induction false} AtMembers(events: seq<Event>, time: nat)
    ensures forall e :: e in At(events, time) <==> e in events && e.createdAt == time
  {
    if events != [] {
      var front, last := events[..|events| - 1], events[|events| - 1];
      AtMembers(front, time);
      assert events == front + [last];
    }
  }

  /** Among equally young patches one is always free of replies, so the search cannot fail. */
  lemma {:induction false} SomeUnreplied(patches: seq<Event>, group: seq<Event>, e: Event, rank: map<EventId, nat>)
    returns (free: Event)
    requires Descends(patches, rank) && e in group && forall g | g in group :: g in patches
    ensures free in group && !RepliedTo(group, free)
    decreases Bound(rank) - rank[e.id]
  {
    free := e;
    if RepliedTo(group, e) {
      var i :| 0 <= i < |group| && ParentId(group[i]) == Some(e.id);
      BoundAbove(rank, group[i].id);
      free := SomeUnreplied(patches, group, group[i], rank);
    }
  }

  ghost function Bound(rank: map<EventId, nat>): nat
    ensures forall id | id in rank :: rank[id] <= Bound(rank)
  {
    if rank == map[] then 0
    else
      var id :| id in rank;
      var rest := rank - {id};
      assert forall x | x in rank :: x == id || x in rest;
      if rank[id] > Bound(rest) then rank[id] else Bound(rest)
  }

  lemma {:induction false} BoundAbove(rank: map<EventId, nat>, id: EventId)
    requires id in rank
    ensures rank[id] <= Bound(rank)
  {}

  method GetMostRecentPatchWithAncestors(patches: seq<Event>, ghost rank: map<EventId, nat>)
    returns (r: Result<seq<Event>, PatchError>)
    requires Authentic(patches) && Descends(patches, rank)
    ensures r.Err? <==> patches == []
    ensures r.Ok? ==> Ancestry(patches, r.value)
    ensures r.Ok? ==>
      var group := At(patches, r.value[0].createdAt);
      Some(r.value[0]) == FirstUnreplied(group, group)
  {
    if patches == [] {
      return Err(NoPatches);
    }
    var sorted := SortByTime(patches);
    TipFound(patches, rank);
    var youngest := sorted[|sorted| - 1];
    var group := At(sorted, youngest.createdAt);
    var tip := FirstUnreplied(group, group);
    var chain: seq<Event> := [];
    var found := FindById(sorted, tip.value.id);
    WalkStart(patches, rank, tip.value);
    while found.Some?
      invariant Walked(patches, rank, tip.value, chain, found)
      decreases if found.Some? then RankOf(rank, found.value) + 1 else 0
    {
      var event := found.value;
      if IsPatchSetRoot(event) {
        WalkEnds(patches, rank, tip.value, chain, event);
        chain := chain + [event];
        break;
      }
      var parent := ParentId(event);
      found := FindById(sorted, if parent.Some? then parent.value else "");
      WalkStep(patches, rank, tip.value, chain, event);
      chain := chain + [event];
    }
    WalkedIsAncestry(patches, rank, tip.value, chain);
    return Ok(chain);
  }

  ghost function RankOf(rank: map<EventId, nat>, e: Event): int {
    if e.id in rank then rank[e.id] else -1
  }

  /** State of the walk: the chain so far, and the event it goes on with, or the finished chain. */
  ghost predicate Walked(patches: seq<Event>, rank: map<EventId, nat>, tip: Event, chain: seq<Event>,
      next: Option<Event>)
  {
    && Descends(patches, rank)
    && (if next.Some? then
          && Threaded(patches, chain + [next.value]) && (chain + [next.value])[0] == tip
          && forall i | 0 <= i < |chain| :: RankOf(rank, next.value) < RankOf(rank, chain[i])
        else chain != [] && chain[0] == tip && Threaded(patches, chain) && StopsAt(patches, chain[|chain| - 1]))
    && (forall i, j | 0 <= i < j < |chain| :: chain[i].id != chain[j].id)
  }

  lemma {:induction false} WalkStart(patches: seq<Event>, rank: map<EventId, nat>, tip: Event)
    requires Authentic(patches) && Descends(patches, rank) && tip in patches
    ensures FindById(SortByTime(patches), tip.id) == Some(tip)
    ensures Walked(patches, rank, tip, [], Some(tip))
  {
    SortByTimeSorts(patches);
    assert [] + [tip] == [tip];
  }

  lemma {:induction false} WalkStep(patches: seq<Event>, rank: map<EventId, nat>, tip: Event, chain: seq<Event>,
      event: Event)
    requires Authentic(patches) && Walked(patches, rank, tip, chain, Some(event)) && !IsPatchSetRoot(event)
    ensures var parent := ParentId(event);
      var next := FindById(SortByTime(patches), if parent.Some? then parent.value else "");
      && Walked(patches, rank, tip, chain + [event], next)
      && (next.Some? ==> RankOf(rank, next.value) < RankOf(rank, event))
      && event in patches && event.id in rank
  {
    SortByTimeSorts(patches);
    assert (chain + [event])[|chain|] == event;
    var parent := ParentId(event);
    var next := FindById(SortByTime(patches), if parent.Some? then parent.value else "");
    if next.Some? {
      WalkContinues(patches, rank, tip, chain, event, next.value);
    } else {
      WalkEnds(patches, rank, tip, chain, event);
    }
  }

  lemma {:induction false} WalkedIsAncestry(patches: seq<Event>, rank: map<EventId, nat>, tip: Event, chain: seq<Event>)
    requires Walked(patches, rank, tip, chain, None) && IsTip(patches, tip)
    ensures Ancestry(patches, chain) && chain[0] == tip
  {}

  lemma {:induction false} WalkContinues(patches: seq<Event>, rank: map<EventId, nat>, tip: Event, chain: seq<Event>,
      event: Event, parent: Event)
    requires Walked(patches, rank, tip, chain, Some(event))
    requires parent in patches && ParentId(event) == Some(parent.id) && !IsPatchSetRoot(event)
    ensures Walked(patches, rank, tip, chain + [event], Some(parent))
  {
    var longer := chain + [event];
    assert longer[|chain|] == event && event in patches;
    assert rank[parent.id] < rank[event.id];
    assert (longer + [parent])[0] == longer[0];
    assert forall i | 0 <= i < |longer| :: (longer + [parent])[i] == longer[i];
  }

  lemma {:induction false} WalkEnds(patches: seq<Event>, rank: map<EventId, nat>, tip: Event, chain: seq<Event>,
      event: Event)
    requires Walked(patches, rank, tip, chain, Some(event)) && StopsAt(patches, event)
    ensures Walked(patches, rank, tip, chain + [event], None)
  {
    assert (chain + [event])[|chain|] == event;
  }

  /** The search for the tip never fails. */
  lemma {:induction false} TipFound(patches: seq<Event>, rank: map<EventId, nat>)
    requires patches != [] && Descends(patches, rank)
    ensures var sorted := SortByTime(patches);
      && sorted != []
      && var group := At(sorted, sorted[|sorted| - 1].createdAt);
         var tip := FirstUnreplied(group, group);
         && tip.Some? && IsTip(patches, tip.value) && group == At(patches, tip.value.createdAt)
  {
    var sorted := SortByTime(patches);
    SortByTimeSorts(patches);
    var youngest := sorted[|sorted| - 1];
    assert youngest in patches;
    var group := At(sorted, youngest.createdAt);
    AtMembers(sorted, youngest.createdAt);
    var tip := FirstUnreplied(group, group);
    if tip.None? {
      var free := SomeUnreplied(patches, group, youngest, rank);
      assert false;
    }
    TipIsTip(patches, sorted, tip.value);
  }

  lemma {:induction false} TipIsTip(patches: seq<Event>, sorted: seq<Event>, e: Event)
    requires InTimeOrder(sorted) && sorted != [] && forall x :: x in sorted <==> x in patches
    requires var group := At(sorted, sorted[|sorted| - 1].createdAt); e in group && !RepliedTo(group, e)
    ensures IsTip(patches, e)
  {
    var youngest := sorted[|sorted| - 1];
    var group := At(sorted, youngest.createdAt);
    AtMembers(sorted, youngest.createdAt);
    forall p | p in patches
      ensures p.createdAt <= e.createdAt && (p.createdAt == e.createdAt ==> ParentId(p) != Some(e.id))
    {
      assert p in sorted;
      if p.createdAt == e.createdAt {
        assert p in group;
        var i :| 0 <= i < |group| && group[i] == p;
      }
    }
  }

  // ---------------------------------------------------------------- selecting the patches of a proposal

  ghost predicate Answers(e: Event, id: EventId, permissioned: set<PublicKey>) {
    e.kind == GitPatch && e.pubkey in permissioned && (Mentions(e, id) || e.id == id)
  }

  /** The proposal's patches and replies by its author or a maintainer, with those of its revisions;
      cover letters are left out. */
  ghost predicate Selects(cache: set<Event>, permissioned: set<PublicKey>, proposal: EventId, e: Event) {
    && e in cache && !IsCoverLetter(e)
    && (Answers(e, proposal, permissioned) || OfRevision(cache, permissioned, proposal, e))
  }

  ghost predicate OfRevision(cache: set<Event>, permissioned: set<PublicKey>, proposal: EventId, e: Event) {
    exists root :: root in cache && Answers(root, proposal, permissioned) && IsRevisionRoot(root)
                   && e.kind == GitPatch && e.pubkey in permissioned && Mentions(e, root.id)
  }

  ghost predicate ProposalInCache(cache: set<Event>, proposal: EventId) {
    exists e :: e in cache && e.kind == GitPatch && e.id == proposal
  }

  /** The patches of the proposal that `root` opened, by its author or a maintainer. */
  ghost predicate IsSelection(cache: set<Event>, maintainers: set<PublicKey>, proposal: EventId, root: Event,
      selected: seq<Event>)
  {
    && root in cache && root.kind == GitPatch && root.id == proposal
    && forall e :: e in selected <==> Selects(cache, maintainers + {root.pubkey}, proposal, e)
  }

  /** `get_all_proposal_patch_events_from_cache` */
  method GetAllProposalPatchEventsFromCache(cache: set<Event>, maintainers: set<PublicKey>, proposal: EventId)
    returns (r: Result<seq<Event>, PatchError>)
    ensures r.Err? <==> !ProposalInCache(cache, proposal)
    ensures r.Ok? ==> exists root :: IsSelection(cache, maintainers, proposal, root, r.value)
  {
    var commitEvents := InAnyOrder(set e | e in cache && e.kind == GitPatch &&
      (Mentions(e, proposal) || e.id == proposal));
    var root := FindById(commitEvents, proposal);
    if root.None? {
      return Err(ProposalNotInCache);
    }
    var permissioned := maintainers + {root.value.pubkey};
    commitEvents := ByUsers(commitEvents, permissioned);
    var revisionRoots := RevisionRootIds(commitEvents);
    if revisionRoots != {} {
      var replies := InAnyOrder(set e, id | e in cache && id in revisionRoots && e.kind == GitPatch &&
        e.pubkey in permissioned && Mentions(e, id) :: e);
      commitEvents := commitEvents + replies;
    }
    var selected := NoCoverLetters(commitEvents, permissioned);
    forall e
      ensures e in selected <==> Selects(cache, permissioned, proposal, e)
    {
      if OfRevision(cache, permissioned, proposal, e) {
        var revision :| revision in cache && Answers(revision, proposal, permissioned) && IsRevisionRoot(revision)
                        && e.kind == GitPatch && e.pubkey in permissioned && Mentions(e, revision.id);
        assert revision.id in revisionRoots;
      }
    }
    assert IsSelection(cache, maintainers, proposal, root.value, selected);
    return Ok(selected);
  }

  function ByUsers(events: seq<Event>, users: set<PublicKey>): (r: seq<Event>)
    ensures forall e :: e in r <==> e in events && e.pubkey in users
  {
    if events == [] then [] else (if events[0].pubkey in users then [events[0]] else []) + ByUsers(events[1..], users)
  }

  function RevisionRootIds(events: seq<Event>): (r: set<EventId>)
    ensures forall id :: id in r <==> exists e :: e in events && IsRevisionRoot(e) && e.id == id
  {
    set e | e in events && IsRevisionRoot(e) :: e.id
  }

  function NoCoverLetters(events: seq<Event>, users: set<PublicKey>): (r: seq<Event>)
    ensures forall e :: e in r <==> e in events && !IsCoverLetter(e) && e.pubkey in users
  {
    if events == [] then []
    else
      var keep := !IsCoverLetter(events[0]) && events[0].pubkey in users;
      (if keep then [events[0]] else []) + NoCoverLetters(events[1..], users)
  }

  /** What is selected, event by event: patches by the proposal's author or a maintainer that are the proposal or
      mention it, or mention a revision of it by such a user; but no cover letters. */
  lemma {:induction false} SelectedExactly(cache: set<Event>, maintainers: set<PublicKey>, proposal: EventId,
      root: Event, selected: seq<Event>, e: Event)
    requires IsSelection(cache, maintainers, proposal, root, selected)
    ensures e in selected <==>
      && e in cache && e.kind == GitPatch && (e.pubkey in maintainers || e.pubkey == root.pubkey)
      && !(Says(e.tags, "root") && Says(e.tags, "cover-letter"))
      && (e.id == proposal || Tagged(e.tags, "e", proposal) || exists revision ::
            && revision in cache && revision.kind == GitPatch && Says(revision.tags, "revision-root")
            && (revision.pubkey in maintainers || revision.pubkey == root.pubkey)
            && (revision.id == proposal || Tagged(revision.tags, "e", proposal))
            && Tagged(e.tags, "e", revision.id))
  {
    hide Says, Tagged;
    var permissioned := maintainers + {root.pubkey};
    if OfRevision(cache, permissioned, proposal, e) {
      var revision :| revision in cache && Answers(revision, proposal, permissioned) && IsRevisionRoot(revision)
                      && e.kind == GitPatch && e.pubkey in permissioned && Mentions(e, revision.id);
    }
  }
}
