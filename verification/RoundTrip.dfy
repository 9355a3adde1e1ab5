/** From commits to patch events and back: the newest series is recovered whole from the cache. */
module RoundTrip {
  import opened Wrappers
  import opened Commits
  import opened Events
  import opened Patches
  import opened Series
  import opened Replay

  /** A series of well-formed commits as its author signed it. */
  ghost predicate Setting(ctx: Context, cover: Option<(string, string)>, commits: seq<CommitInfo>, stamps: seq<Stamp>,
      events: seq<Event>)
  {
    && commits != []
    && WellFormedContext(ctx) && WellFormedStamps(stamps) &&
      (forall k | 0 <= k < |commits| :: WellFormedCommit(commits[k]))
    && IsSeries(ctx, cover, commits, stamps, events)
  }

  /** The proposal that a series opens or revises. */
  function ProposalOf(ctx: Context, stamps: seq<Stamp>): EventId
    requires stamps != []
  {
    if ctx.rootProposal.Some? then ctx.rootProposal.value else stamps[0].id
  }

  /** A cache that holds the published series. Whatever else is selected for the proposal is older than
      the newest patch, and the events of the series were signed in order. */
  ghost predicate Published(ctx: Context, cover: Option<(string, string)>, commits: seq<CommitInfo>, stamps: seq<Stamp>,
      events: seq<Event>, cache: set<Event>, permissioned: set<PublicKey>, proposal: EventId)
  {
    && Setting(ctx, cover, commits, stamps, events)
    && (forall i, j | 0 <= i < j < |stamps| :: stamps[i].createdAt <= stamps[j].createdAt)
    && (forall i | 0 <= i < |events| :: events[i] in cache)
    && (forall e, f | e in cache && f in cache && e.id == f.id :: e == f)
    && ctx.signer in permissioned
    && proposal == ProposalOf(ctx, stamps)
    && (forall e | Selects(cache, permissioned, proposal, e) && e !in events ::
      e.createdAt < stamps[|stamps| - 1].createdAt)
  }

  /** No reply is taken for a root, and the first patch not for a cover letter, because of the words that
      its commit or branch happens to put in second place of a tag. */
  predicate CleanWords(ctx: Context, cover: Option<(string, string)>, commits: seq<CommitInfo>)
    requires commits != [] && forall k | 0 <= k < |commits| :: WellFormedCommit(commits[k])
  {
    && (forall k | 1 <= k < |commits| :: !CommitSays(commits[k], "root"))
    && (if cover.Some? then !(CommitSays(commits[0], "root") && CommitSays(commits[0], "cover-letter"))
        else !CommitSays(commits[0], "cover-letter") && !Says(BranchTags(ctx.branch), "cover-letter"))
  }

  /** The patches of the series, oldest first. */
  function PatchesOf(cover: Option<(string, string)>, events: seq<Event>): seq<Event>
    requires cover.Some? ==> events != []
  {
    if cover.Some? then events[1..] else events
  }

  lemma {:induction false} PatchFacts(ctx: Context, cover: Option<(string, string)>, commits: seq<CommitInfo>,
      stamps: seq<Stamp>, events: seq<Event>, k: nat)
    requires Setting(ctx, cover, commits, stamps, events) && k < |commits|
    ensures var first := if cover.Some? then 1 else 0;
      var e := events[first + k];
      && e.kind == GitPatch && e.pubkey == ctx.signer && e.id == stamps[first + k].id &&
        e.createdAt == stamps[first + k].createdAt
      && (first + k > 0 ==> ParentId(e) == Some(stamps[first + k - 1].id) && Mentions(e, stamps[0].id))
  {
    SeriesPatch(ctx, cover, commits, stamps, events, k);
    var first := if cover.Some? then 1 else 0;
    PatchEventFacts(ctx, commits[k], stamps, first + k);
  }

  lemma {:induction false} PatchEventFacts(ctx: Context, commit: CommitInfo, stamps: seq<Stamp>, i: nat)
    requires i < |stamps|
    ensures var e := PatchEvent(ctx, commit, stamps[i], ThreadOf(stamps, i), ParentOf(stamps, i));
      && e.kind == GitPatch && e.pubkey == ctx.signer && e.id == stamps[i].id && e.createdAt == stamps[i].createdAt
      && (i > 0 ==> ParentId(e) == Some(stamps[i - 1].id) && Mentions(e, stamps[0].id))
  {
    if i > 0 {
      ReplyParent(ctx, commit, stamps[i], stamps[0].id, stamps[i - 1].id);
      ReplyMentionsThread(ctx, commit, stamps[i], stamps[0].id, Some(stamps[i - 1].id));
    }
  }

  /** Which words a patch of the series says. */
  lemma {:induction false} PatchSays(ctx: Context, cover: Option<(string, string)>, commits: seq<CommitInfo>,
      stamps: seq<Stamp>, events: seq<Event>, k: nat)
    requires Setting(ctx, cover, commits, stamps, events) && k < |commits|
    ensures var first := if cover.Some? then 1 else 0;
      var e := events[first + k];
      && (IsPatchSetRoot(e) <==> first + k == 0 || CommitSays(commits[k], "root"))
      && (IsCoverLetter(e) <==>
            if first + k > 0 then CommitSays(commits[k], "root") && CommitSays(commits[k], "cover-letter")
            else CommitSays(commits[0], "cover-letter") || Says(BranchTags(ctx.branch), "cover-letter"))
  {
    SeriesPatch(ctx, cover, commits, stamps, events, k);
    PatchEventSays(ctx, commits[k], stamps, (if cover.Some? then 1 else 0) + k);
  }

  lemma {:induction false} PatchEventSays(ctx: Context, commit: CommitInfo, stamps: seq<Stamp>, i: nat)
    requires i < |stamps| && WellFormedContext(ctx) && WellFormedCommit(commit) && WellFormedStamps(stamps)
    ensures var e := PatchEvent(ctx, commit, stamps[i], ThreadOf(stamps, i), ParentOf(stamps, i));
      && (IsPatchSetRoot(e) <==> i == 0 || CommitSays(commit, "root"))
      && (IsCoverLetter(e) <==>
            if i > 0 then CommitSays(commit, "root") && CommitSays(commit, "cover-letter")
            else CommitSays(commit, "cover-letter") || Says(BranchTags(ctx.branch), "cover-letter"))
  {
    Words();
    if i > 0 {
      ReplySays(ctx, commit, stamps[0].id, Some(stamps[i - 1].id), "root");
      ReplySays(ctx, commit, stamps[0].id, Some(stamps[i - 1].id), "cover-letter");
    } else {
      FirstSays(ctx, commit, "root");
      SaysAt(ThreadTags(ctx, None), "root", 0);
      FirstSays(ctx, commit, "cover-letter");
      ThreadSilentOnCover(ctx);
    }
  }

  lemma {:induction false} ThreadSilentOnCover(ctx: Context)
    requires WellFormedContext(ctx)
    ensures !Says(ThreadTags(ctx, None), "cover-letter")
  {
    Words();
    assert |"cover-letter"| == 12 && |"root"| == 4 && |"revision-root"| == 13;
    SilentSaysNot(ThreadTags(ctx, None), "cover-letter");
  }

  lemma {:induction false} CoverIsCoverLetter(ctx: Context, title: string, description: string, last: string,
      count: nat, stamp: Stamp)
    ensures var e := CoverEvent(ctx, title, description, last, count, stamp);
      IsCoverLetter(e) && (ctx.rootProposal.Some? ==> IsRevisionRoot(e) && Mentions(e, ctx.rootProposal.value))
  {
    var e := CoverEvent(ctx, title, description, last, count, stamp);
    var n := |CoordinateTags(ctx.repo, ctx.repo.maintainers)|;
    SaysAt(e.tags, "cover-letter", n + 1);
    SaysAt(e.tags, "root", n + 3);
    if ctx.rootProposal.Some? {
      SaysAt(e.tags, "revision-root", n + 4);
      TaggedAt(e.tags, "e", ctx.rootProposal.value, n + 5);
    }
  }

  lemma {:induction false} FirstPatchOfRevision(ctx: Context, commit: CommitInfo, stamp: Stamp)
    requires ctx.rootProposal.Some?
    ensures var e := PatchEvent(ctx, commit, stamp, None, None);
      IsRevisionRoot(e) && Mentions(e, ctx.rootProposal.value)
  {
    var e := PatchEvent(ctx, commit, stamp, None, None);
    var n := |CoordinateTags(ctx.repo, ctx.repo.maintainers)| + 3;
    SaysAt(e.tags, "revision-root", n + 1);
    TaggedAt(e.tags, "e", ctx.rootProposal.value, n + 2);
  }

  /** The first event of a series stands in the cache for the proposal, or for a revision of it. */
  lemma {:induction false} FirstEventFacts(ctx: Context, cover: Option<(string, string)>, commits: seq<CommitInfo>,
      stamps: seq<Stamp>, events: seq<Event>)
    requires Setting(ctx, cover, commits, stamps, events)
    ensures var e := events[0];
      && e.kind == GitPatch && e.pubkey == ctx.signer && e.id == stamps[0].id && e.createdAt == stamps[0].createdAt
      && (cover.Some? ==> IsCoverLetter(e))
      && (ctx.rootProposal.Some? ==> IsRevisionRoot(e) && Mentions(e, ctx.rootProposal.value))
  {
    if cover.Some? {
      CoverIsCoverLetter(ctx, cover.value.0, cover.value.1, commits[|commits| - 1].id, |commits|, stamps[0]);
    } else {
      PatchFacts(ctx, cover, commits, stamps, events, 0);
      SeriesPatch(ctx, cover, commits, stamps, events, 0);
      if ctx.rootProposal.Some? {
        FirstPatchOfRevision(ctx, commits[0], stamps[0]);
      }
    }
  }

  /** Selection keeps the patches of the series, unless one is taken for a cover letter. */
  lemma {:induction false} PatchSelected(ctx: Context, cover: Option<(string, string)>, commits: seq<CommitInfo>,
      stamps: seq<Stamp>, events: seq<Event>, cache: set<Event>, permissioned: set<PublicKey>, proposal: EventId,
        k: nat)
    requires Published(ctx, cover, commits, stamps, events, cache, permissioned, proposal) && k < |commits|
    ensures var e := events[(if cover.Some? then 1 else 0) + k];
      Selects(cache, permissioned, proposal, e) <==> !IsCoverLetter(e)
  {
    var first := if cover.Some? then 1 else 0;
    var e := events[first + k];
    PatchFacts(ctx, cover, commits, stamps, events, k);
    FirstEventFacts(ctx, cover, commits, stamps, events);
    if ctx.rootProposal.Some? {
      assert Answers(events[0], proposal, permissioned);
      if first + k > 0 {
        assert OfRevision(cache, permissioned, proposal, e);
      }
    }
  }

  /** What recovery knows of a thread whose patches start at `first`, among the selected events. */
  ghost predicate SelectedThread(events: seq<Event>, first: nat, selected: seq<Event>) {
    && first <= 1 && first < |events|
    && (forall i, j | 0 <= i < j < |events| :: events[i].createdAt <= events[j].createdAt)
    && (forall i | 1 <= i < |events| :: ParentId(events[i]) == Some(events[i - 1].id))
    && (forall i | first <= i < |events| :: events[i] in selected <==> !IsCoverLetter(events[i]))
    && (forall e | e in selected && e !in events :: e.createdAt < events[|events| - 1].createdAt)
    && (forall e, f | e in selected && f in selected && e.id == f.id :: e == f)
    && (if first == 0 then IsPatchSetRoot(events[0]) else forall e | e in selected :: e.id != events[0].id)
  }

  lemma {:induction false} SeriesIsSelectedThread(ctx: Context, cover: Option<(string, string)>,
      commits: seq<CommitInfo>, stamps: seq<Stamp>, events: seq<Event>, cache: set<Event>, permissioned: set<PublicKey>,
      proposal: EventId, selected: seq<Event>)
    requires Published(ctx, cover, commits, stamps, events, cache, permissioned, proposal)
    requires forall e :: e in selected <==> Selects(cache, permissioned, proposal, e)
    ensures SelectedThread(events, if cover.Some? then 1 else 0, selected)
  {
    var first := if cover.Some? then 1 else 0;
    SeriesThreaded(ctx, cover, commits, stamps, events);
    FirstEventFacts(ctx, cover, commits, stamps, events);
    PatchesSelected(ctx, cover, commits, stamps, events, cache, permissioned, proposal, selected);
    OthersSelected(cache, permissioned, proposal, events, selected);
    if cover.None? {
      PatchSays(ctx, cover, commits, stamps, events, 0);
    }
  }

  lemma {:induction false} PatchesSelected(ctx: Context, cover: Option<(string, string)>, commits: seq<CommitInfo>,
      stamps: seq<Stamp>, events: seq<Event>, cache: set<Event>, permissioned: set<PublicKey>, proposal: EventId,
      selected: seq<Event>)
    requires Published(ctx, cover, commits, stamps, events, cache, permissioned, proposal)
    requires forall e :: e in selected <==> Selects(cache, permissioned, proposal, e)
    ensures var first := if cover.Some? then 1 else 0;
      forall i | first <= i < |events| :: events[i] in selected <==> !IsCoverLetter(events[i])
  {
    var first := if cover.Some? then 1 else 0;
    forall i | first <= i < |events|
      ensures events[i] in selected <==> !IsCoverLetter(events[i])
    {
      PatchSelected(ctx, cover, commits, stamps, events, cache, permissioned, proposal, i - first);
    }
  }

  lemma {:induction false} OthersSelected(cache: set<Event>, permissioned: set<PublicKey>, proposal: EventId,
      events: seq<Event>, selected: seq<Event>)
    requires events != [] && events[0] in cache
    requires forall e, f | e in cache && f in cache && e.id == f.id :: e == f
    requires forall e :: e in selected <==> Selects(cache, permissioned, proposal, e)
    ensures forall e, f | e in selected && f in selected && e.id == f.id :: e == f
    ensures IsCoverLetter(events[0]) ==> forall e | e in selected :: e.id != events[0].id
  {}

  /** Stamps and parents of the whole thread, the cover letter included. */
  lemma {:induction false} SeriesThreaded(ctx: Context, cover: Option<(string, string)>, commits: seq<CommitInfo>,
      stamps: seq<Stamp>, events: seq<Event>)
    requires Setting(ctx, cover, commits, stamps, events)
    ensures forall i | 0 <= i < |events| :: events[i].id == stamps[i].id && events[i].createdAt == stamps[i].createdAt
    ensures forall i | 1 <= i < |events| :: ParentId(events[i]) == Some(events[i - 1].id)
  {
    var first := if cover.Some? then 1 else 0;
    FirstEventFacts(ctx, cover, commits, stamps, events);
    forall i | 0 <= i < |events|
      ensures events[i].id == stamps[i].id && events[i].createdAt == stamps[i].createdAt
      ensures i > 0 ==> ParentId(events[i]) == Some(stamps[i - 1].id)
    {
      if i >= first {
        PatchFacts(ctx, cover, commits, stamps, events, i - first);
      }
    }
  }

  /** No reply is taken for a root and the first patch is not taken for a cover letter. */
  ghost predicate NothingMistaken(events: seq<Event>, first: nat)
    requires first < |events|
  {
    (forall i | first < i < |events| :: !IsPatchSetRoot(events[i])) && !IsCoverLetter(events[first])
  }

  lemma {:induction false} ThreadRecovered(events: seq<Event>, first: nat, selected: seq<Event>, chain: seq<Event>)
    requires SelectedThread(events, first, selected) && Ancestry(selected, chain)
    ensures chain == Reversed(events[first..]) <==> NothingMistaken(events, first)
  {
    if NothingMistaken(events, first) {
      CleanThreadRecovered(events, first, selected, chain);
    }
    if chain == Reversed(events[first..]) {
      RecoveredIsClean(events, first, selected, chain);
    }
  }

  lemma {:induction false} CleanThreadRecovered(events: seq<Event>, first: nat, selected: seq<Event>, chain: seq<Event>)
    requires SelectedThread(events, first, selected) && Ancestry(selected, chain) && NothingMistaken(events, first)
    ensures chain == Reversed(events[first..])
  {
    PatchesThreaded(events, first, selected);
    TipOfPatches(events, first, selected, chain[0]);
    TipIsNewest(events[first..], selected, chain[0]);
    ChainFollows(events[first..], selected, chain, if first == 1 then Some(events[0].id) else None);
  }

  lemma {:induction false} PatchesThreaded(events: seq<Event>, first: nat, selected: seq<Event>)
    requires SelectedThread(events, first, selected) && NothingMistaken(events, first)
    ensures ThreadedPatches(events[first..], selected)
    ensures forall k | 1 <= k < |events[first..]| :: !IsPatchSetRoot(events[first..][k])
  {
    var patches := events[first..];
    forall k | 0 <= k < |patches|
      ensures patches[k] in selected &&
        (k > 0 ==> !IsPatchSetRoot(patches[k]) && ParentId(patches[k]) == Some(patches[k - 1].id))
    {
      assert patches[k] == events[first + k];
      if k > 0 {
        assert patches[k - 1] == events[first + k - 1];
      }
    }
  }

  lemma {:induction false} TipOfPatches(events: seq<Event>, first: nat, selected: seq<Event>, tip: Event)
    requires SelectedThread(events, first, selected) && tip in selected
    ensures tip in events[first..] || tip.createdAt < events[|events| - 1].createdAt
  {
    if tip in events {
      var i :| 0 <= i < |events| && events[i] == tip;
      assert i >= first && events[first..][i - first] == tip;
    }
  }

  lemma {:induction false} RecoveredIsClean(events: seq<Event>, first: nat, selected: seq<Event>, chain: seq<Event>)
    requires SelectedThread(events, first, selected) && Ancestry(selected, chain) && chain == Reversed(events[first..])
    ensures NothingMistaken(events, first)
  {
    var n := |events| - first;
    forall i | first < i < |events|
      ensures !IsPatchSetRoot(events[i])
    {
      RecoveredReply(events, first, selected, chain, i);
    }
    ReversedAt(events[first..], n - 1);
    assert chain[n - 1] in selected && chain[n - 1] == events[first];
  }

  lemma {:induction false} RecoveredReply(events: seq<Event>, first: nat, selected: seq<Event>, chain: seq<Event>,
      i: nat)
    requires first < i < |events| && Ancestry(selected, chain) && chain == Reversed(events[first..])
    ensures !IsPatchSetRoot(events[i])
  {
    ReversedAt(events[first..], |events| - 1 - i);
    GoesOnTo(selected, chain, |events| - 1 - i);
  }

  /** The series round trip, exactly: recovery gives all the patches, newest first, if and only if no word of the
      series is in the way. */
  lemma {:induction false} SeriesRoundTrip(ctx: Context, cover: Option<(string, string)>, commits: seq<CommitInfo>,
      stamps: seq<Stamp>, events: seq<Event>, cache: set<Event>, permissioned: set<PublicKey>, proposal: EventId,
      selected: seq<Event>, chain: seq<Event>)
    requires Published(ctx, cover, commits, stamps, events, cache, permissioned, proposal)
    requires forall e :: e in selected <==> Selects(cache, permissioned, proposal, e)
    requires Ancestry(selected, chain)
    ensures chain == Reversed(PatchesOf(cover, events)) <==> CleanWords(ctx, cover, commits)
  {
    var first := if cover.Some? then 1 else 0;
    SeriesIsSelectedThread(ctx, cover, commits, stamps, events, cache, permissioned, proposal, selected);
    ThreadRecovered(events, first, selected, chain);
    MistakenWords(ctx, cover, commits, stamps, events);
    assert events[0..] == events;
  }

  lemma {:induction false} MistakenWords(ctx: Context, cover: Option<(string, string)>, commits: seq<CommitInfo>,
      stamps: seq<Stamp>, events: seq<Event>)
    requires Setting(ctx, cover, commits, stamps, events)
    ensures NothingMistaken(events, if cover.Some? then 1 else 0) <==> CleanWords(ctx, cover, commits)
  {
    var first := if cover.Some? then 1 else 0;
    forall k | 0 <= k < |commits|
      ensures IsPatchSetRoot(events[first + k]) <==> first + k == 0 || CommitSays(commits[k], "root")
    {
      PatchSays(ctx, cover, commits, stamps, events, k);
    }
    PatchSays(ctx, cover, commits, stamps, events, 0);
    if NothingMistaken(events, first) {
      forall k | 1 <= k < |commits|
        ensures !CommitSays(commits[k], "root")
      {
        assert !IsPatchSetRoot(events[first + k]);
      }
    }
    if CleanWords(ctx, cover, commits) {
      forall i | first < i < |events|
        ensures !IsPatchSetRoot(events[i])
      {
        assert !CommitSays(commits[i - first], "root");
      }
    }
  }

  ghost predicate ThreadedPatches(patches: seq<Event>, selected: seq<Event>) {
    && patches != []
    && (forall k | 0 <= k < |patches| :: patches[k] in selected)
    && (forall k | 1 <= k < |patches| :: ParentId(patches[k]) == Some(patches[k - 1].id))
  }

  lemma {:induction false} TipIsNewest(patches: seq<Event>, selected: seq<Event>, tip: Event)
    requires ThreadedPatches(patches, selected) && IsTip(selected, tip)
    requires forall i, j | 0 <= i < j < |patches| :: patches[i].createdAt <= patches[j].createdAt
    requires tip in patches || tip.createdAt < patches[|patches| - 1].createdAt
    ensures tip == patches[|patches| - 1]
  {
    var newest := patches[|patches| - 1];
    assert newest.createdAt <= tip.createdAt;
    var i :| 0 <= i < |patches| && patches[i] == tip;
    var above := if i < |patches| - 1 then i + 1 else i;
    assert tip.createdAt <= patches[above].createdAt <= newest.createdAt;
  }

  ghost predicate Follows(patches: seq<Event>, selected: seq<Event>, chain: seq<Event>) {
    && ThreadedPatches(patches, selected)
    && Ancestry(selected, chain) && chain[0] == patches[|patches| - 1]
    && (forall e, f | e in selected && f in selected && e.id == f.id :: e == f)
  }

  lemma {:induction false} ChainAt(patches: seq<Event>, selected: seq<Event>, chain: seq<Event>, j: nat)
    requires Follows(patches, selected, chain) && j < |chain| && j < |patches|
    ensures chain[j] == patches[|patches| - 1 - j]
  {
    if j > 0 {
      ChainAt(patches, selected, chain, j - 1);
      assert ParentId(chain[j - 1]) == Some(chain[j].id);
      assert chain[j] in selected;
    }
  }

  lemma {:induction false} NotStoppedAt(patches: seq<Event>, selected: seq<Event>, k: nat)
    requires ThreadedPatches(patches, selected) && 1 <= k < |patches| && !IsPatchSetRoot(patches[k])
    ensures !StopsAt(selected, patches[k])
  {
    assert patches[k - 1] in selected;
  }

  lemma {:induction false} GoesOnTo(selected: seq<Event>, chain: seq<Event>, i: nat)
    requires Ancestry(selected, chain) && i + 1 < |chain|
    ensures !IsPatchSetRoot(chain[i]) && ParentId(chain[i]) == Some(chain[i + 1].id) && chain[i + 1] in selected
  {}

  lemma {:induction false} ChainLongEnough(patches: seq<Event>, selected: seq<Event>, chain: seq<Event>)
    requires Follows(patches, selected, chain)
    requires forall k | 1 <= k < |patches| :: !IsPatchSetRoot(patches[k])
    ensures |chain| >= |patches|
  {
    if |chain| < |patches| {
      ChainAt(patches, selected, chain, |chain| - 1);
      var k := |patches| - |chain|;
      NotStoppedAt(patches, selected, k);
    }
  }

  lemma {:induction false} ChainShortEnough(patches: seq<Event>, selected: seq<Event>, chain: seq<Event>,
      coverId: Option<EventId>)
    requires Follows(patches, selected, chain)
    requires if coverId.Some? then ParentId(patches[0]) == coverId && forall e | e in selected :: e.id != coverId.value
             else IsPatchSetRoot(patches[0])
    ensures |chain| <= |patches|
  {
    var n := |patches|;
    if |chain| > n {
      ChainAt(patches, selected, chain, n - 1);
      GoesOnTo(selected, chain, n - 1);
    }
  }

  /** From the newest patch the walk follows the thread down to the first patch and ends there. */
  lemma {:induction false} ChainFollows(patches: seq<Event>, selected: seq<Event>, chain: seq<Event>,
      coverId: Option<EventId>)
    requires Follows(patches, selected, chain)
    requires forall k | 1 <= k < |patches| :: !IsPatchSetRoot(patches[k])
    requires if coverId.Some? then ParentId(patches[0]) == coverId && forall e | e in selected :: e.id != coverId.value
             else IsPatchSetRoot(patches[0])
    ensures chain == Reversed(patches)
  {
    ChainLongEnough(patches, selected, chain);
    ChainShortEnough(patches, selected, chain, coverId);
    forall j | 0 <= j < |chain|
      ensures chain[j] == Reversed(patches)[j]
    {
      ChainAt(patches, selected, chain, j);
      ReversedAt(patches, j);
    }
  }

  // ---------------------------------------------------------------- a series that is not recovered

  const ANN := ["ann", "ann@example.com", "0", "0"]

  const ROOT_BY_NAME := ["root", "root@example.com", "0", "0"]

  const MISTAKEN_CONTEXT := Context("a", RepoInfo("repo", ["b"], []), "b", None, None, [])

  /** Two commits, the second by somebody called `root`. */
  const MISTAKEN_COMMITS := [CommitInfo("c", "a", "one", "one", ANN, ANN, "", "diff"),
                             CommitInfo("d", "c", "two", "two", ROOT_BY_NAME, ANN, "", "diff")]

  const MISTAKEN_STAMPS: seq<Stamp> := [Stamp(1, "e"), Stamp(2, "f")]

  const MISTAKEN_EVENTS := [PatchEvent(MISTAKEN_CONTEXT, MISTAKEN_COMMITS[0], MISTAKEN_STAMPS[0], None, None),
                            PatchEvent(MISTAKEN_CONTEXT, MISTAKEN_COMMITS[1], MISTAKEN_STAMPS[1], Some("e"), Some("e"))]

  lemma {:induction false} MistakenSetting()
    ensures Setting(MISTAKEN_CONTEXT, None, MISTAKEN_COMMITS, MISTAKEN_STAMPS, MISTAKEN_EVENTS)
  {
    var commits, stamps, events := MISTAKEN_COMMITS, MISTAKEN_STAMPS, MISTAKEN_EVENTS;
    assert "e"[0] == 'e' && "f"[0] == 'f';
    forall k | 0 <= k < |commits|
      ensures WellFormedCommit(commits[k]) && IsPatchOf(MISTAKEN_CONTEXT, commits, stamps, events, 0, k)
    {
      assert k == 0 || k == 1;
    }
  }

  lemma {:induction false} MistakenPublished()
    ensures Published(MISTAKEN_CONTEXT, None, MISTAKEN_COMMITS, MISTAKEN_STAMPS, MISTAKEN_EVENTS,
                      {MISTAKEN_EVENTS[0], MISTAKEN_EVENTS[1]}, {"b"}, "e")
  {
    MistakenSetting();
    assert "e"[0] == 'e' && "f"[0] == 'f';
    assert MISTAKEN_EVENTS[0].id == "e" && MISTAKEN_EVENTS[1].id == "f";
  }

  lemma {:induction false} MistakenSays()
    ensures var e := MISTAKEN_EVENTS[1]; IsPatchSetRoot(e) && !IsCoverLetter(e) && e.createdAt == 2
    ensures MISTAKEN_EVENTS[0].createdAt == 1
  {
    MistakenSetting();
    var commits := MISTAKEN_COMMITS;
    assert commits[1].author[0] == "root" && CommitSays(commits[1], "root");
    assert |"cover-letter"| == 12 && !CommitSays(commits[1], "cover-letter");
    PatchSays(MISTAKEN_CONTEXT, None, commits, MISTAKEN_STAMPS, MISTAKEN_EVENTS, 1);
    SeriesPatch(MISTAKEN_CONTEXT, None, commits, MISTAKEN_STAMPS, MISTAKEN_EVENTS, 1);
  }

  /** Of that series, published as it should be, recovery gives the second patch alone. */
  lemma {:induction false} MistakenSeries(selected: seq<Event>, chain: seq<Event>)
    requires forall e :: e in selected <==> Selects({MISTAKEN_EVENTS[0], MISTAKEN_EVENTS[1]}, {"b"}, "e", e)
    requires Ancestry(selected, chain)
    ensures Published(MISTAKEN_CONTEXT, None, MISTAKEN_COMMITS, MISTAKEN_STAMPS, MISTAKEN_EVENTS,
                      {MISTAKEN_EVENTS[0], MISTAKEN_EVENTS[1]}, {"b"}, "e")
    ensures MISTAKEN_COMMITS[1].author[0] == "root"
    ensures chain == [MISTAKEN_EVENTS[1]]
  {
    MistakenPublished();
    MistakenSays();
    var events := MISTAKEN_EVENTS;
    PatchSelected(MISTAKEN_CONTEXT, None, MISTAKEN_COMMITS, MISTAKEN_STAMPS, events, {events[0], events[1]}, {"b"}, "e",
      1);
    assert events[1] in selected && chain[0] in selected;
    assert chain[0] == events[1];
  }

  // ---------------------------------------------------------------- and back to commits

  /** What git tells about a commit, and a diff that makes its tree from the tree of its parent. */
  ghost predicate InfoOf(git: Git, info: CommitInfo, c: CommitObject, parentTree: Tree) {
    && info.id == git.Id(c) && c.parents == [info.parent]
    && info.author == c.author && info.committer == c.committer && info.message == c.message
    && c.sig == (if info.pgpSig == "" then None else Some(info.pgpSig))
    && git.Apply(parentTree, info.patchText) == Some(c.tree)
  }

  /** A linear range of commits, oldest first, on top of a commit that is held. */
  ghost predicate RangeOf(git: Git, objects: Objects, commits: seq<CommitInfo>, originals: seq<CommitObject>) {
    && |commits| == |originals| > 0
    && commits[0].parent in objects && InfoOf(git, commits[0], originals[0], objects[commits[0].parent].tree)
    && forall k | 1 <= k < |commits| :: FollowsIn(git, commits, originals, k)
  }

  ghost predicate FollowsIn(git: Git, commits: seq<CommitInfo>, originals: seq<CommitObject>, k: nat)
    requires 1 <= k < |commits| == |originals|
  {
    commits[k].parent == commits[k - 1].id && InfoOf(git, commits[k], originals[k], originals[k - 1].tree)
  }

  lemma {:induction false} InRange(git: Git, objects: Objects, commits: seq<CommitInfo>, originals: seq<CommitObject>,
      k: nat)
    requires RangeOf(git, objects, commits, originals) && k < |commits|
    ensures exists tree :: InfoOf(git, commits[k], originals[k], tree)
    ensures k > 0 ==>
      SitsOn(git, originals, k) && git.Apply(originals[k - 1].tree, commits[k].patchText) == Some(originals[k].tree)
  {
    if k > 0 {
      var holds := FollowsIn(git, commits, originals, k);
      assert holds;
      InRange(git, objects, commits, originals, k - 1);
    }
  }

  /** The patch event of a commit describes that commit. */
  lemma {:induction false} PatchDescribes(git: Git, ctx: Context, info: CommitInfo, c: CommitObject, tree: Tree,
      stamp: Stamp, thread: Option<EventId>, parent: Option<EventId>)
    requires WellFormedContext(ctx) && WellFormedCommit(info) && InfoOf(git, info, c, tree)
    ensures Describes(git, PatchEvent(ctx, info, stamp, thread, parent), c)
  {
    PatchTagValues(ctx, info, stamp, thread, parent);
    TagsDescribe(git, PatchEvent(ctx, info, stamp, thread, parent), info, c, tree);
  }

  lemma {:induction false} TagsDescribe(git: Git, e: Event, info: CommitInfo, c: CommitObject, tree: Tree)
    requires TellsCommit(e.tags, info) && WellFormedCommit(info) && InfoOf(git, info, c, tree)
    ensures Describes(git, e, c)
  {
    assert (["author"] + info.author)[1..] == info.author;
    assert (["committer"] + info.committer)[1..] == info.committer;
  }

  lemma {:induction false} PatchOfSeriesDescribes(git: Git, objects: Objects, ctx: Context,
      cover: Option<(string, string)>, commits: seq<CommitInfo>, stamps: seq<Stamp>, events: seq<Event>,
      originals: seq<CommitObject>, k: nat)
    requires Setting(ctx, cover, commits, stamps, events) && RangeOf(git, objects, commits, originals) && k < |commits|
    ensures var patch := PatchesOf(cover, events)[k];
      && Describes(git, patch, originals[k]) && patch.content == commits[k].patchText
      && (k > 0 ==> SitsOn(git, originals, k) && AppliesOnTop(git, patch, originals, k))
  {
    var i := (if cover.Some? then 1 else 0) + k;
    SeriesPatch(ctx, cover, commits, stamps, events, k);
    InRange(git, objects, commits, originals, k);
    var tree :| InfoOf(git, commits[k], originals[k], tree);
    PatchDescribes(git, ctx, commits[k], originals[k], tree, stamps[i], ThreadOf(stamps, i), ParentOf(stamps, i));
  }

  lemma {:induction false} SeriesDescribes(git: Git, objects: Objects, ctx: Context, cover: Option<(string, string)>,
      commits: seq<CommitInfo>, stamps: seq<Stamp>, events: seq<Event>, originals: seq<CommitObject>)
    requires Setting(ctx, cover, commits, stamps, events) && RangeOf(git, objects, commits, originals)
    ensures DescribesSeries(git, objects, PatchesOf(cover, events), originals)
  {
    var patches := PatchesOf(cover, events);
    forall k | 0 <= k < |commits|
      ensures Describes(git, patches[k], originals[k])
    {
      PatchOfSeriesDescribes(git, objects, ctx, cover, commits, stamps, events, originals, k);
    }
    forall k | 1 <= k < |commits|
      ensures SitsOn(git, originals, k) && AppliesOnTop(git, patches[k], originals, k)
    {
      PatchOfSeriesDescribes(git, objects, ctx, cover, commits, stamps, events, originals, k);
    }
    PatchOfSeriesDescribes(git, objects, ctx, cover, commits, stamps, events, originals, 0);
  }

  lemma {:induction false} ReversedTwice<T>(s: seq<T>)
    ensures Reversed(Reversed(s)) == s
  {
    forall i | 0 <= i < |s|
      ensures Reversed(Reversed(s))[i] == s[i]
    {
      ReversedAt(Reversed(s), i);
      ReversedAt(s, |s| - 1 - i);
    }
  }

  lemma {:induction false} TipId(git: Git, objects: Objects, commits: seq<CommitInfo>, originals: seq<CommitObject>)
    requires RangeOf(git, objects, commits, originals)
    ensures |originals| > 0 && |commits| > 0 && git.Id(originals[|originals| - 1]) == commits[|commits| - 1].id
  {
    InRange(git, objects, commits, originals, |commits| - 1);
  }

  lemma {:induction false} PublishedIsSet(ctx: Context, cover: Option<(string, string)>, commits: seq<CommitInfo>,
      stamps: seq<Stamp>, events: seq<Event>, cache: set<Event>, permissioned: set<PublicKey>, proposal: EventId)
    requires Published(ctx, cover, commits, stamps, events, cache, permissioned, proposal)
    ensures Setting(ctx, cover, commits, stamps, events) && |events| == |commits| + (if cover.Some? then 1 else 0)
  {}

  /** The whole way round: what recovery finds of a clean series is exactly what `MakeCommitsForProposal` needs to
      return the original tip, whatever part of the range is held besides its base. */
  lemma {:induction false} RecoveredSeriesReplays(git: Git, objects: Objects, ctx: Context,
      cover: Option<(string, string)>, commits: seq<CommitInfo>, stamps: seq<Stamp>, events: seq<Event>,
      cache: set<Event>, permissioned: set<PublicKey>, proposal: EventId, selected: seq<Event>, chain: seq<Event>,
      originals: seq<CommitObject>)
    requires Published(ctx, cover, commits, stamps, events, cache, permissioned, proposal)
    requires forall e :: e in selected <==> Selects(cache, permissioned, proposal, e)
    requires Ancestry(selected, chain) && CleanWords(ctx, cover, commits)
    requires RangeOf(git, objects, commits, originals)
    ensures DescribesSeries(git, objects, Reversed(chain), originals)
    ensures git.Id(originals[|originals| - 1]) == commits[|commits| - 1].id
  {
    hide *;
    PublishedIsSet(ctx, cover, commits, stamps, events, cache, permissioned, proposal);
    SeriesRoundTrip(ctx, cover, commits, stamps, events, cache, permissioned, proposal, selected, chain);
    ReversedTwice(PatchesOf(cover, events));
    SeriesDescribes(git, objects, ctx, cover, commits, stamps, events, originals);
    TipId(git, objects, commits, originals);
  }
}
