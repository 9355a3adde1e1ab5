/** A range of commits as a thread of patch events. */
module Series {
  import opened Wrappers
  import opened Text
  import opened Events

  datatype RepoInfo = RepoInfo(identifier: string, maintainers: seq<PublicKey>, relays: seq<string>)

  /** What is read from git about a commit; `patchText` is its diff as a mail. */
  datatype CommitInfo = CommitInfo(id: string, parent: string, message: string, summary: string,
                                   author: seq<string>, committer: seq<string>, pgpSig: string, patchText: string)

  datatype Context = Context(rootCommit: string, repo: RepoInfo, signer: PublicKey, branch: Option<string>,
                             rootProposal: Option<EventId>, mentions: seq<Tag>)

  // ---------------------------------------------------------------- tags

  function CoordinateTags(repo: RepoInfo, maintainers: seq<PublicKey>): seq<Tag> {
    if maintainers == [] then []
    else [["a", "30617:" + maintainers[0] + ":" + repo.identifier] +
      (if repo.relays == [] then [] else [repo.relays[0]])]
         + CoordinateTags(repo, maintainers[1..])
  }

  function PersonTags(maintainers: seq<PublicKey>): seq<Tag> {
    if maintainers == [] then [] else [["p", maintainers[0]]] + PersonTags(maintainers[1..])
  }

  function EventTag(repo: RepoInfo, id: EventId, marker: string): Tag {
    ["e", id, if repo.relays == [] then "" else repo.relays[0], marker]
  }

  function BranchTags(branch: Option<string>): seq<Tag> {
    if branch.None? || branch.value in ["main", "master", "origin/main", "origin/master"] then []
    else
      var name := if StartsWith(branch.value, "pr/") then branch.value[3..] else branch.value;
      [["branch-name", if |name| > 60 then name[..60] else name]]
  }

  function OpeningTags(ctx: Context, commit: CommitInfo): seq<Tag> {
    [["r", ctx.rootCommit], ["r", commit.id], ["alt", "git patch: " + commit.summary]]
  }

  function ThreadTags(ctx: Context, thread: Option<EventId>): seq<Tag> {
    match thread
    case Some(id) => [EventTag(ctx.repo, id, "root")]
    case None =>
      match ctx.rootProposal
      case Some(proposal) => [["t", "root"], ["t", "revision-root"], ["e", proposal, "", "reply"]]
      case None => [["t", "root"]]
  }

  function ParentTags(ctx: Context, parent: Option<EventId>): seq<Tag> {
    if parent.Some? then [EventTag(ctx.repo, parent.value, "reply")] else []
  }

  function CommitTags(commit: CommitInfo): seq<Tag> {
    [["commit", commit.id], ["parent-commit", commit.parent], ["commit-pgp-sig", commit.pgpSig],
     ["description", commit.message], ["author"] + commit.author, ["committer"] + commit.committer]
  }

  /** The tags that precede those describing the commit. */
  function HeaderTags(ctx: Context, commit: CommitInfo, thread: Option<EventId>, parent: Option<EventId>): seq<Tag> {
    CoordinateTags(ctx.repo, ctx.repo.maintainers)
    + (OpeningTags(ctx, commit)
    + (ThreadTags(ctx, thread)
    + ((if thread.None? then ctx.mentions else [])
    + (ParentTags(ctx, parent)
    + ((if thread.None? then BranchTags(ctx.branch) else [])
    + PersonTags(ctx.repo.maintainers))))))
  }

  /** `generate_patch_event` */
  function PatchEvent(ctx: Context, commit: CommitInfo, stamp: Stamp, thread: Option<EventId>,
      parent: Option<EventId>): Event
  {
    Event(stamp.id, ctx.signer, stamp.createdAt, GitPatch,
          HeaderTags(ctx, commit, thread, parent) + CommitTags(commit), commit.patchText)
  }

  function Decimal(n: nat): string {
    if n < 10 then ["0123456789"[n]] else Decimal(n / 10) + ["0123456789"[n % 10]]
  }

  function CoverTags(ctx: Context, title: string): seq<Tag> {
    [["r", ctx.rootCommit], ["t", "cover-letter"], ["alt", "git patch cover letter: " + title]]
  }

  /** The date that stands in every mail. */
  const MAIL_DATE := " Mon Sep 17 00:00:00 2001\n"

  /** The text of a cover letter for `count` commits, up to its title. */
  function CoverOpening(lastCommit: string, count: nat): string {
    "From " + lastCommit + MAIL_DATE + "Subject: [PATCH 0/" + Decimal(count) + "] "
  }

  function CoverEvent(ctx: Context, title: string, description: string, lastCommit: string, count: nat, stamp: Stamp):
    Event
  {
    Event(stamp.id, ctx.signer, stamp.createdAt, GitPatch,
          CoordinateTags(ctx.repo, ctx.repo.maintainers) + CoverTags(ctx, title)
          + ThreadTags(ctx, None) + ctx.mentions + BranchTags(ctx.branch) + PersonTags(ctx.repo.maintainers),
          CoverOpening(lastCommit, count) + title + "\n\n" + description)
  }

  /** The thread that a series forms: everything replies to the event before, under the first event. */
  ghost predicate IsSeries(ctx: Context, cover: Option<(string, string)>, commits: seq<CommitInfo>, stamps: seq<Stamp>,
      events: seq<Event>)
  {
    var first := if cover.Some? then 1 else 0;
    && |stamps| == |events| == first + |commits|
    && (cover.Some? ==>
      && commits != []
      && events[0] == CoverEvent(ctx, cover.value.0, cover.value.1, commits[|commits| - 1].id, |commits|, stamps[0]))
    && forall k | 0 <= k < |commits| :: IsPatchOf(ctx, commits, stamps, events, first, k)
  }

  lemma {:induction false} SeriesPatch(ctx: Context, cover: Option<(string, string)>, commits: seq<CommitInfo>,
      stamps: seq<Stamp>, events: seq<Event>, k: nat)
    requires IsSeries(ctx, cover, commits, stamps, events) && k < |commits|
    ensures var first := if cover.Some? then 1 else 0;
      events[first + k] == PatchEvent(ctx, commits[k], stamps[first + k], ThreadOf(stamps, first + k),
        ParentOf(stamps, first + k))
  {
    var holds := IsPatchOf(ctx, commits, stamps, events, if cover.Some? then 1 else 0, k);
    assert holds;
  }

  /** The patch of the `k`th commit is event `first + k` of its thread. */
  ghost predicate IsPatchOf(ctx: Context, commits: seq<CommitInfo>, stamps: seq<Stamp>, events: seq<Event>, first: nat,
      k: nat)
    requires k < |commits| && first + k < |stamps| && first + k < |events|
  {
    events[first + k] == PatchEvent(ctx, commits[k], stamps[first + k], ThreadOf(stamps, first + k),
      ParentOf(stamps, first + k))
  }

  function ThreadOf(stamps: seq<Stamp>, i: nat): Option<EventId>
    requires i < |stamps|
  {
    if i == 0 then None else Some(stamps[0].id)
  }

  function ParentOf(stamps: seq<Stamp>, i: nat): Option<EventId>
    requires i < |stamps|
  {
    if i == 0 then None else Some(stamps[i - 1].id)
  }

  /** `stamps` are the ids and times that signing gives to the events, in order. */
  method GenerateCoverLetterAndPatchEvents(ctx: Context, cover: Option<(string, string)>, commits: seq<CommitInfo>,
      stamps: seq<Stamp>)
    returns (events: seq<Event>)
    requires cover.Some? ==> commits != []
    requires |stamps| == |commits| + (if cover.Some? then 1 else 0)
    ensures IsSeries(ctx, cover, commits, stamps, events)
  {
    hide HeaderTags, CommitTags, CoordinateTags, CoverTags, CoverOpening, ThreadTags, BranchTags, PersonTags;
    events := [];
    if cover.Some? {
      events := [CoverEvent(ctx, cover.value.0, cover.value.1, commits[|commits| - 1].id, |commits|, stamps[0])];
    }
    ghost var start := events;
    for i := 0 to |commits|
      invariant |events| == |start| + i && start <= events
      invariant forall j | 0 <= j < |events| :: events[j].id == stamps[j].id
      invariant forall k | 0 <= k < i :: IsPatchOf(ctx, commits, stamps, events, |start|, k)
    {
      var thread := if events == [] then None else Some(events[0].id);
      var parent := if events == [] then None else Some(events[|events| - 1].id);
      var patch := PatchEvent(ctx, commits[i], stamps[|events|], thread, parent);
      PatchAppended(ctx, commits, stamps, events, |start|, patch);
      events := events + [patch];
    }
  }

  lemma {:induction false} PatchAppended(ctx: Context, commits: seq<CommitInfo>, stamps: seq<Stamp>, events: seq<Event>,
      first: nat, patch: Event)
    requires first <= |events| < first + |commits| && |stamps| == first + |commits|
    requires patch == PatchEvent(ctx, commits[|events| - first], stamps[|events|], ThreadOf(stamps, |events|),
      ParentOf(stamps, |events|))
    requires forall k | 0 <= k < |events| - first :: IsPatchOf(ctx, commits, stamps, events, first, k)
    ensures forall k | 0 <= k <= |events| - first :: IsPatchOf(ctx, commits, stamps, events + [patch], first, k)
  {
    hide PatchEvent, ThreadOf, ParentOf;
    forall k | 0 <= k <= |events| - first
      ensures IsPatchOf(ctx, commits, stamps, events + [patch], first, k)
    {
      if k < |events| - first {
        var holds := IsPatchOf(ctx, commits, stamps, events, first, k);
        assert holds && (events + [patch])[first + k] == events[first + k];
      } else {
        assert (events + [patch])[first + k] == patch;
      }
    }
  }

  // ---------------------------------------------------------------- what is known of the inputs

  /** A git signature as its tag has it: name, email, seconds, offset in minutes. */
  predicate IsSignature(sig: seq<string>) {
    |sig| == 4
  }

  predicate WellFormedCommit(commit: CommitInfo) {
    IsHex(commit.id) && IsHex(commit.parent) && IsSignature(commit.author) && IsSignature(commit.committer)
  }

  /** A reference to an event, a coordinate or a person; events are marked as mentions. */
  predicate IsMention(tag: Tag) {
    && |tag| > 1 && tag[0] in ["e", "a", "p"]
    && (|tag| > 3 ==> tag[3] == "mention")
    && (IsHex(tag[1]) || ':' in tag[1])
  }

  predicate WellFormedContext(ctx: Context) {
    && IsHex(ctx.rootCommit)
    && (forall i | 0 <= i < |ctx.repo.maintainers| :: IsHex(ctx.repo.maintainers[i]))
    && (forall i | 0 <= i < |ctx.mentions| :: IsMention(ctx.mentions[i]))
    && (ctx.rootProposal.Some? ==> IsHex(ctx.rootProposal.value))
  }

  predicate WellFormedStamps(stamps: seq<Stamp>) {
    && (forall i | 0 <= i < |stamps| :: stamps[i].id != "" && IsHex(stamps[i].id))
    && (forall i, j | 0 <= i < j < |stamps| :: stamps[i].id != stamps[j].id)
  }

  /** A word that no id and no coordinate can be taken for. */
  predicate IsWord(w: string) {
    Free(w, ':') && !IsHex(w)
  }

  lemma {:induction false} Words()
    ensures IsWord("root") && IsWord("cover-letter") && IsWord("revision-root")
  {
    assert !IsHexDigit("root"[0]) && !IsHexDigit("cover-letter"[1]) && !IsHexDigit("revision-root"[0]);
  }

  /** The words that a commit puts in second place of its tags. */
  predicate CommitSays(commit: CommitInfo, word: string)
    requires WellFormedCommit(commit)
  {
    word in [commit.pgpSig, commit.message, commit.author[0], commit.committer[0]]
  }

  // ---------------------------------------------------------------- what the tags say

  lemma {:induction false} CoordinateTagsFacts(repo: RepoInfo, maintainers: seq<PublicKey>, word: string)
    requires IsWord(word)
    ensures var tags := CoordinateTags(repo, maintainers);
      && Silent(tags, word)
      && forall i | 0 <= i < |tags| :: 1 < |tags[i]| <= 3 && tags[i][0] == "a"
  {
    if maintainers != [] {
      CoordinateTagsFacts(repo, maintainers[1..], word);
      var coordinate := "30617:" + maintainers[0] + ":" + repo.identifier;
      assert coordinate[5] == ':';
    }
  }

  lemma {:induction false} PersonTagsFacts(maintainers: seq<PublicKey>, word: string)
    requires IsWord(word) && forall i | 0 <= i < |maintainers| :: IsHex(maintainers[i])
    ensures var tags := PersonTags(maintainers);
      && Silent(tags, word)
      && forall i | 0 <= i < |tags| :: |tags[i]| == 2 && tags[i][0] == "p"
  {
    if maintainers != [] {
      PersonTagsFacts(maintainers[1..], word);
    }
  }

  lemma {:induction false} OpeningSilent(ctx: Context, commit: CommitInfo, word: string)
    requires IsWord(word) && IsHex(ctx.rootCommit) && IsHex(commit.id)
    ensures Silent(OpeningTags(ctx, commit), word)
  {
    assert ("git patch: " + commit.summary)[9] == ':';
  }

  lemma {:induction false} BothSilent(a: seq<Tag>, b: seq<Tag>, word: string)
    requires Silent(a, word) && Silent(b, word)
    ensures Silent(a + b, word)
  {}

  lemma {:induction false} ReplyHeaderIs(ctx: Context, commit: CommitInfo, thread: EventId, parent: Option<EventId>)
    ensures HeaderTags(ctx, commit, Some(thread), parent) ==
      CoordinateTags(ctx.repo, ctx.repo.maintainers) + (OpeningTags(ctx, commit) + (ThreadTags(ctx, Some(thread)) +
        ([] + (ParentTags(ctx, parent) + ([] + PersonTags(ctx.repo.maintainers))))))
  {
    hide CoordinateTags, OpeningTags, ThreadTags, ParentTags, PersonTags;
  }

  lemma {:induction false} ReplyTagsSilent(ctx: Context, thread: EventId, parent: Option<EventId>, word: string)
    requires IsWord(word) && IsHex(thread) && (parent.Some? ==> IsHex(parent.value))
    ensures Silent(ThreadTags(ctx, Some(thread)), word) && Silent(ParentTags(ctx, parent), word) && Silent([], word)
  {}

  lemma {:induction false} KnownHex(ctx: Context, commit: CommitInfo)
    requires WellFormedContext(ctx) && WellFormedCommit(commit)
    ensures IsHex(ctx.rootCommit) && IsHex(commit.id)
    ensures forall i | 0 <= i < |ctx.repo.maintainers| :: IsHex(ctx.repo.maintainers[i])
  {}

  /** Before the tags of its commit, a reply holds nothing but ids, coordinates and keys. */
  lemma {:induction false} ReplyHeaderSilent(ctx: Context, commit: CommitInfo, thread: EventId, parent: Option<EventId>,
      word: string)
    requires WellFormedContext(ctx) && WellFormedCommit(commit) && IsWord(word)
    requires IsHex(thread) && (parent.Some? ==> IsHex(parent.value))
    ensures Silent(HeaderTags(ctx, commit, Some(thread), parent), word)
  {
    hide *;
    KnownHex(ctx, commit);
    CoordinateTagsFacts(ctx.repo, ctx.repo.maintainers, word);
    PersonTagsFacts(ctx.repo.maintainers, word);
    OpeningSilent(ctx, commit, word);
    ReplyTagsSilent(ctx, thread, parent, word);
    ReplyHeaderIs(ctx, commit, thread, parent);
    var root, last := ThreadTags(ctx, Some(thread)), ParentTags(ctx, parent);
    var persons := PersonTags(ctx.repo.maintainers);
    BothSilent([], persons, word);
    BothSilent(last, [] + persons, word);
    BothSilent([], last + ([] + persons), word);
    BothSilent(root, [] + (last + ([] + persons)), word);
    BothSilent(OpeningTags(ctx, commit), root + ([] + (last + ([] + persons))), word);
    BothSilent(CoordinateTags(ctx.repo, ctx.repo.maintainers),
      OpeningTags(ctx, commit) + (root + ([] + (last + ([] + persons)))), word);
  }

  /** A reply carries only what its commit says. */
  lemma {:induction false} ReplySays(ctx: Context, commit: CommitInfo, thread: EventId, parent: Option<EventId>,
      word: string)
    requires WellFormedContext(ctx) && WellFormedCommit(commit) && IsWord(word)
    requires IsHex(thread) && (parent.Some? ==> IsHex(parent.value))
    ensures Says(HeaderTags(ctx, commit, Some(thread), parent) + CommitTags(commit), word) <==> CommitSays(commit, word)
  {
    hide *;
    var header := HeaderTags(ctx, commit, Some(thread), parent);
    ReplyHeaderSilent(ctx, commit, thread, parent, word);
    SilentSaysNot(header, word);
    SaysConcat(header, CommitTags(commit), word);
    CommitTagsSay(commit, word);
  }

  lemma {:induction false} CommitTagsSay(commit: CommitInfo, word: string)
    requires WellFormedCommit(commit) && IsWord(word)
    ensures Says(CommitTags(commit), word) <==> CommitSays(commit, word)
  {
    var tags := CommitTags(commit);
    assert tags[0][1] == commit.id && tags[1][1] == commit.parent && tags[2][1] == commit.pgpSig;
    assert tags[3][1] == commit.message && tags[4][1] == commit.author[0] && tags[5][1] == commit.committer[0];
    if CommitSays(commit, word) {
      SaysAt(tags, word, if commit.pgpSig == word then 2 else if commit.message == word then 3
        else if commit.author[0] == word then 4 else 5);
    } else {
      SilentSaysNot(tags, word);
    }
  }

  lemma {:induction false} BranchTagsFacts(branch: Option<string>)
    ensures var tags := BranchTags(branch);
      && forall i | 0 <= i < |tags| :: |tags[i]| == 2 && tags[i][0] == "branch-name"
  {}

  /** The first event of a series without cover letter says what its commit and branch say, and `root`. */
  lemma {:induction false} FirstSays(ctx: Context, commit: CommitInfo, word: string)
    requires WellFormedContext(ctx) && WellFormedCommit(commit) && IsWord(word)
    ensures Says(HeaderTags(ctx, commit, None, None) + CommitTags(commit), word) <==>
      || Says(ThreadTags(ctx, None), word) || Says(BranchTags(ctx.branch), word) || CommitSays(commit, word)
  {
    var coordinates, opening, thread := CoordinateTags(ctx.repo, ctx.repo.maintainers), OpeningTags(ctx, commit),
      ThreadTags(ctx, None);
    var branch, persons := BranchTags(ctx.branch), PersonTags(ctx.repo.maintainers);
    CoordinateTagsFacts(ctx.repo, ctx.repo.maintainers, word);
    PersonTagsFacts(ctx.repo.maintainers, word);
    OpeningSilent(ctx, commit, word);
    SilentSaysNot(coordinates, word);
    SilentSaysNot(opening, word);
    SilentSaysNot(ctx.mentions, word);
    SilentSaysNot(persons, word);
    SaysConcat(branch, persons, word);
    SaysConcat([], branch + persons, word);
    SaysConcat(ctx.mentions, [] + (branch + persons), word);
    SaysConcat(thread, ctx.mentions + ([] + (branch + persons)), word);
    SaysConcat(opening, thread + (ctx.mentions + ([] + (branch + persons))), word);
    SaysConcat(coordinates, opening + (thread + (ctx.mentions + ([] + (branch + persons)))), word);
    SaysConcat(HeaderTags(ctx, commit, None, None), CommitTags(commit), word);
    CommitTagsSay(commit, word);
  }

  ghost predicate Unmarked(tags: seq<Tag>) {
    forall i | 0 <= i < |tags| :: |tags[i]| <= 3 || (tags[i][3] != "reply" && tags[i][3] != "root")
  }

  lemma {:induction false} UnmarkedSkipped(tags: seq<Tag>, rest: seq<Tag>, marker: string)
    requires Unmarked(tags) && marker in ["reply", "root"]
    ensures FirstMarked(tags + rest, marker) == FirstMarked(rest, marker)
  {
    NotMarked(tags, marker);
    FirstMarkedConcat(tags, rest, marker);
  }

  lemma {:induction false} HeaderReply(ctx: Context, commit: CommitInfo, thread: EventId, parent: EventId)
    ensures FirstMarked(HeaderTags(ctx, commit, Some(thread), Some(parent)), "reply") ==
      Some(EventTag(ctx.repo, parent, "reply"))
  {
    Words();
    CoordinateTagsFacts(ctx.repo, ctx.repo.maintainers, "root");
    var coordinates, opening := CoordinateTags(ctx.repo, ctx.repo.maintainers), OpeningTags(ctx, commit);
    var after: seq<Tag> := [] + ([EventTag(ctx.repo, parent, "reply")] + ([] + PersonTags(ctx.repo.maintainers)));
    assert after[0] == EventTag(ctx.repo, parent, "reply");
    assert FirstMarked(after, "reply") == Some(after[0]);
    ThreadTagSkipped(ctx.repo, thread, after);
    UnmarkedSkipped(opening, [EventTag(ctx.repo, thread, "root")] + after, "reply");
    UnmarkedSkipped(coordinates, opening + ([EventTag(ctx.repo, thread, "root")] + after), "reply");
  }

  lemma {:induction false} ThreadTagSkipped(repo: RepoInfo, thread: EventId, after: seq<Tag>)
    ensures FirstMarked([EventTag(repo, thread, "root")] + after, "reply") == FirstMarked(after, "reply")
  {
    var tags := [EventTag(repo, thread, "root")] + after;
    assert tags[1..] == after;
    assert |"root"| != |"reply"|;
  }

  /** A reply's parent is the event it was given as parent. */
  lemma {:induction false} ReplyParent(ctx: Context, commit: CommitInfo, stamp: Stamp, thread: EventId, parent: EventId)
    ensures ParentId(PatchEvent(ctx, commit, stamp, Some(thread), Some(parent))) == Some(parent)
  {
    HeaderReply(ctx, commit, thread, parent);
    FirstMarkedConcat(HeaderTags(ctx, commit, Some(thread), Some(parent)), CommitTags(commit), "reply");
  }

  /** Every reply mentions the first event of its thread. */
  lemma {:induction false} ReplyMentionsThread(ctx: Context, commit: CommitInfo, stamp: Stamp, thread: EventId,
      parent: Option<EventId>)
    ensures Mentions(PatchEvent(ctx, commit, stamp, Some(thread), parent), thread)
  {
    var before := |CoordinateTags(ctx.repo, ctx.repo.maintainers)| + |OpeningTags(ctx, commit)|;
    var e := PatchEvent(ctx, commit, stamp, Some(thread), parent);
    assert e.tags[before] == EventTag(ctx.repo, thread, "root");
    TaggedAt(e.tags, "e", thread, before);
  }

  // ---------------------------------------------------------------- whom the tags address

  /** Where a tag of a patch may come from. */
  lemma {:induction false} HeaderTagged(ctx: Context, commit: CommitInfo, thread: Option<EventId>,
      parent: Option<EventId>, name: string, value: string)
    ensures Tagged(HeaderTags(ctx, commit, thread, parent) + CommitTags(commit), name, value) <==>
      || Tagged(CoordinateTags(ctx.repo, ctx.repo.maintainers), name, value)
      || Tagged(OpeningTags(ctx, commit), name, value) || Tagged(ThreadTags(ctx, thread), name, value)
      || Tagged(if thread.None? then ctx.mentions else [], name, value) || Tagged(ParentTags(ctx, parent), name, value)
      || Tagged(if thread.None? then BranchTags(ctx.branch) else [], name, value)
      || Tagged(PersonTags(ctx.repo.maintainers), name, value) || Tagged(CommitTags(commit), name, value)
  {
    hide Tagged, CoordinateTags, OpeningTags, ThreadTags, ParentTags, BranchTags, PersonTags, CommitTags;
    var mentions := if thread.None? then ctx.mentions else [];
    var branch := if thread.None? then BranchTags(ctx.branch) else [];
    var persons := PersonTags(ctx.repo.maintainers);
    var last := ParentTags(ctx, parent) + (branch + persons);
    TaggedConcat(branch, persons, name, value);
    TaggedConcat(ParentTags(ctx, parent), branch + persons, name, value);
    TaggedConcat(mentions, last, name, value);
    TaggedConcat(ThreadTags(ctx, thread), mentions + last, name, value);
    TaggedConcat(OpeningTags(ctx, commit), ThreadTags(ctx, thread) + (mentions + last), name, value);
    TaggedConcat(CoordinateTags(ctx.repo, ctx.repo.maintainers),
      OpeningTags(ctx, commit) + (ThreadTags(ctx, thread) + (mentions + last)), name, value);
    TaggedConcat(HeaderTags(ctx, commit, thread, parent), CommitTags(commit), name, value);
  }

  /** Where a tag of a cover letter may come from. */
  lemma {:induction false} CoverTagged(ctx: Context, title: string, description: string, lastCommit: string,
      count: nat, stamp: Stamp, name: string, value: string)
    ensures Tagged(CoverEvent(ctx, title, description, lastCommit, count, stamp).tags, name, value) <==>
      || Tagged(CoordinateTags(ctx.repo, ctx.repo.maintainers), name, value)
      || Tagged(CoverTags(ctx, title), name, value) || Tagged(ThreadTags(ctx, None), name, value)
      || Tagged(ctx.mentions, name, value) || Tagged(BranchTags(ctx.branch), name, value)
      || Tagged(PersonTags(ctx.repo.maintainers), name, value)
  {
    hide Tagged, CoordinateTags, CoverTags, ThreadTags, BranchTags, PersonTags;
    var coordinates, thread := CoordinateTags(ctx.repo, ctx.repo.maintainers), ThreadTags(ctx, None);
    TaggedConcat(coordinates, CoverTags(ctx, title), name, value);
    TaggedConcat(coordinates + CoverTags(ctx, title), thread, name, value);
    TaggedConcat(coordinates + CoverTags(ctx, title) + thread, ctx.mentions, name, value);
    TaggedConcat(coordinates + CoverTags(ctx, title) + thread + ctx.mentions, BranchTags(ctx.branch), name, value);
    TaggedConcat(coordinates + CoverTags(ctx, title) + thread + ctx.mentions + BranchTags(ctx.branch),
      PersonTags(ctx.repo.maintainers), name, value);
  }

  lemma {:induction false} CoordinateTagged(repo: RepoInfo, maintainers: seq<PublicKey>, value: string)
    ensures Tagged(CoordinateTags(repo, maintainers), "a", value) <==>
      exists k :: k in maintainers && value == "30617:" + k + ":" + repo.identifier
  {
    if maintainers != [] {
      CoordinateTagged(repo, maintainers[1..], value);
    }
  }

  lemma {:induction false} PersonTagged(maintainers: seq<PublicKey>, value: string)
    ensures Tagged(PersonTags(maintainers), "p", value) <==> value in maintainers
  {
    if maintainers != [] {
      PersonTagged(maintainers[1..], value);
    }
  }

  /** The parts of an event that name neither addresses nor persons. */
  lemma {:induction false} Unaddressed(ctx: Context, commit: CommitInfo, title: string, thread: Option<EventId>,
      parent: Option<EventId>, name: string, value: string)
    requires name in ["a", "p"]
    ensures !Tagged(OpeningTags(ctx, commit), name, value) && !Tagged(ThreadTags(ctx, thread), name, value)
    ensures !Tagged(ParentTags(ctx, parent), name, value) && !Tagged(BranchTags(ctx.branch), name, value)
    ensures !Tagged(CommitTags(commit), name, value) && !Tagged(CoverTags(ctx, title), name, value)
    ensures !Tagged([], name, value)
  {
    assert name[0] in ['a', 'p'] && |name| == 1;
    assert "r"[0] == 'r' && "t"[0] == 't' && "e"[0] == 'e';
    NotTagged(OpeningTags(ctx, commit), name, value);
    NotTagged(ThreadTags(ctx, thread), name, value);
    NotTagged(ParentTags(ctx, parent), name, value);
    NotTagged(BranchTags(ctx.branch), name, value);
    NotTagged(CommitTags(commit), name, value);
    NotTagged(CoverTags(ctx, title), name, value);
  }

  lemma {:induction false} AddressesApart(repo: RepoInfo, maintainers: seq<PublicKey>, value: string)
    ensures !Tagged(CoordinateTags(repo, maintainers), "p", value) && !Tagged(PersonTags(maintainers), "a", value)
  {
    if maintainers != [] {
      AddressesApart(repo, maintainers[1..], value);
      assert "a"[0] == 'a' && "p"[0] == 'p';
    }
  }

  /** An event of a series, whose tags start with those of its repository. */
  ghost predicate IsAddressed(ctx: Context, e: Event, mentions: seq<Tag>) {
    && (forall value :: Tagged(e.tags, "a", value) <==>
          || Tagged(mentions, "a", value)
          || exists k :: k in ctx.repo.maintainers && value == "30617:" + k + ":" + ctx.repo.identifier)
    && (forall value :: Tagged(e.tags, "p", value) <==>
          Tagged(mentions, "p", value) || value in ctx.repo.maintainers)
  }

  /** A patch is addressed to the repository's announcement by each maintainer and to each maintainer, and beyond that
      to what the first event of a series mentions. */
  lemma {:induction false} PatchAddressed(ctx: Context, commit: CommitInfo, stamp: Stamp, thread: Option<EventId>,
      parent: Option<EventId>)
    ensures IsAddressed(ctx, PatchEvent(ctx, commit, stamp, thread, parent), if thread.None? then ctx.mentions else [])
  {
    hide Tagged, CoordinateTags, HeaderTags, OpeningTags, ThreadTags, ParentTags, BranchTags, PersonTags, CommitTags;
    var e := PatchEvent(ctx, commit, stamp, thread, parent);
    var mentions := if thread.None? then ctx.mentions else [];
    forall value
      ensures Tagged(e.tags, "a", value) <==>
        || Tagged(mentions, "a", value)
        || exists k :: k in ctx.repo.maintainers && value == "30617:" + k + ":" + ctx.repo.identifier
    {
      HeaderTagged(ctx, commit, thread, parent, "a", value);
      Unaddressed(ctx, commit, "", thread, parent, "a", value);
      CoordinateTagged(ctx.repo, ctx.repo.maintainers, value);
      AddressesApart(ctx.repo, ctx.repo.maintainers, value);
    }
    forall value
      ensures Tagged(e.tags, "p", value) <==> Tagged(mentions, "p", value) || value in ctx.repo.maintainers
    {
      HeaderTagged(ctx, commit, thread, parent, "p", value);
      Unaddressed(ctx, commit, "", thread, parent, "p", value);
      PersonTagged(ctx.repo.maintainers, value);
      AddressesApart(ctx.repo, ctx.repo.maintainers, value);
    }
  }

  lemma {:induction false} CoverAddressed(ctx: Context, title: string, description: string, lastCommit: string,
      count: nat, stamp: Stamp)
    ensures IsAddressed(ctx, CoverEvent(ctx, title, description, lastCommit, count, stamp), ctx.mentions)
  {
    hide Tagged, CoordinateTags, CoverTags, ThreadTags, BranchTags, PersonTags, CoverEvent;
    var e := CoverEvent(ctx, title, description, lastCommit, count, stamp);
    var none := CommitInfo("", "", "", "", [], [], "", "");
    forall value
      ensures Tagged(e.tags, "a", value) <==>
        || Tagged(ctx.mentions, "a", value)
        || exists k :: k in ctx.repo.maintainers && value == "30617:" + k + ":" + ctx.repo.identifier
    {
      CoverTagged(ctx, title, description, lastCommit, count, stamp, "a", value);
      Unaddressed(ctx, none, title, None, None, "a", value);
      CoordinateTagged(ctx.repo, ctx.repo.maintainers, value);
      AddressesApart(ctx.repo, ctx.repo.maintainers, value);
    }
    forall value
      ensures Tagged(e.tags, "p", value) <==> Tagged(ctx.mentions, "p", value) || value in ctx.repo.maintainers
    {
      CoverTagged(ctx, title, description, lastCommit, count, stamp, "p", value);
      Unaddressed(ctx, none, title, None, None, "p", value);
      PersonTagged(ctx.repo.maintainers, value);
      AddressesApart(ctx.repo, ctx.repo.maintainers, value);
    }
  }

  /** Every event of a series is addressed to the repository and its maintainers. */
  lemma {:induction false} SeriesAddressed(ctx: Context, cover: Option<(string, string)>, commits: seq<CommitInfo>,
      stamps: seq<Stamp>, events: seq<Event>, i: nat)
    requires IsSeries(ctx, cover, commits, stamps, events) && i < |events|
    ensures IsAddressed(ctx, events[i], if i == 0 then ctx.mentions else [])
  {
    hide PatchEvent, CoverEvent, IsAddressed;
    if i == 0 && cover.Some? {
      CoverAddressed(ctx, cover.value.0, cover.value.1, commits[|commits| - 1].id, |commits|, stamps[0]);
    } else {
      var first := if cover.Some? then 1 else 0;
      SeriesPatch(ctx, cover, commits, stamps, events, i - first);
      PatchAddressed(ctx, commits[i - first], stamps[i], ThreadOf(stamps, i), ParentOf(stamps, i));
    }
  }

  /** Every event of a series refers to the repository's root commit; a patch refers to its commit as well, and holds
      its text. */
  lemma {:induction false} SeriesRefers(ctx: Context, cover: Option<(string, string)>, commits: seq<CommitInfo>,
      stamps: seq<Stamp>, events: seq<Event>, i: nat)
    requires IsSeries(ctx, cover, commits, stamps, events) && i < |events|
    ensures events[i].pubkey == ctx.signer && Tagged(events[i].tags, "r", ctx.rootCommit)
    ensures var first := if cover.Some? then 1 else 0;
      i >= first ==>
        Tagged(events[i].tags, "r", commits[i - first].id) && events[i].content == commits[i - first].patchText
  {
    var n := |CoordinateTags(ctx.repo, ctx.repo.maintainers)|;
    var first := if cover.Some? then 1 else 0;
    if i >= first {
      SeriesPatch(ctx, cover, commits, stamps, events, i - first);
      assert events[i].tags[n + 1] == ["r", commits[i - first].id];
      TaggedAt(events[i].tags, "r", commits[i - first].id, n + 1);
    }
    assert events[i].tags[n] == ["r", ctx.rootCommit];
    TaggedAt(events[i].tags, "r", ctx.rootCommit, n);
  }

  /** The first event of a series says that it is a root. */
  lemma {:induction false} FirstIsRoot(ctx: Context, cover: Option<(string, string)>, commits: seq<CommitInfo>,
      stamps: seq<Stamp>, events: seq<Event>)
    requires IsSeries(ctx, cover, commits, stamps, events) && events != []
    ensures events[0].kind == GitPatch && Says(events[0].tags, "root")
  {
    var n := |CoordinateTags(ctx.repo, ctx.repo.maintainers)| + 3;
    if cover.None? {
      SeriesPatch(ctx, cover, commits, stamps, events, 0);
    }
    assert events[0].tags[n] == ["t", "root"];
    SaysAt(events[0].tags, "root", n);
  }

  // ---------------------------------------------------------------- what a replay reads from the tags

  predicate DescribesCommit(name: string) {
    name in ["commit", "parent-commit", "commit-pgp-sig", "description", "author", "committer"]
  }

  lemma {:induction false} HeaderNames(ctx: Context, commit: CommitInfo, thread: Option<EventId>,
      parent: Option<EventId>)
    requires WellFormedContext(ctx)
    ensures HeaderNamed(HeaderTags(ctx, commit, thread, parent))
  {
    Words();
    CoordinateTagsFacts(ctx.repo, ctx.repo.maintainers, "root");
    PersonTagsFacts(ctx.repo.maintainers, "root");
    BranchTagsFacts(ctx.branch);
    var mentions := if thread.None? then ctx.mentions else [];
    var branch := if thread.None? then BranchTags(ctx.branch) else [];
    var persons := PersonTags(ctx.repo.maintainers);
    BothHeaderNamed(branch, persons);
    BothHeaderNamed(ParentTags(ctx, parent), branch + persons);
    BothHeaderNamed(mentions, ParentTags(ctx, parent) + (branch + persons));
    BothHeaderNamed(ThreadTags(ctx, thread), mentions + (ParentTags(ctx, parent) + (branch + persons)));
    BothHeaderNamed(OpeningTags(ctx, commit), ThreadTags(ctx, thread) +
      (mentions + (ParentTags(ctx, parent) + (branch + persons))));
  }

  lemma {:induction false} BothHeaderNamed(a: seq<Tag>, b: seq<Tag>)
    requires HeaderNamed(a) && HeaderNamed(b)
    ensures HeaderNamed(a + b)
  {}

  ghost predicate HeaderNamed(tags: seq<Tag>) {
    forall i | 0 <= i < |tags| :: tags[i] != [] && tags[i][0] in ["a", "r", "alt", "t", "e", "p", "branch-name"]
  }

  lemma {:induction false} NamesApart(name: string, other: string)
    requires DescribesCommit(name) && other in ["a", "r", "alt", "t", "e", "p", "branch-name"]
    ensures name != other
  {
    if |name| == |other| {
      assert other == "branch-name" && name == "description";
      assert other[0] == 'b' && name[0] == 'd';
    }
  }

  /** The tags that describe the commit are found past the header. */
  lemma {:induction false} CommitTagFound(ctx: Context, commit: CommitInfo, stamp: Stamp, thread: Option<EventId>,
      parent: Option<EventId>, name: string)
    requires WellFormedContext(ctx) && DescribesCommit(name)
    ensures FirstNamed(PatchEvent(ctx, commit, stamp, thread, parent).tags, name) ==
      FirstNamed(CommitTags(commit), name)
  {
    var header := HeaderTags(ctx, commit, thread, parent);
    HeaderNames(ctx, commit, thread, parent);
    forall i | 0 <= i < |header|
      ensures header[i][0] != name
    {
      NamesApart(name, header[i][0]);
    }
    NotNamed(header, name);
    FirstNamedConcat(header, CommitTags(commit), name);
  }

  /** The tags name the commit, its parent, its signature text, message, author and committer. */
  ghost predicate TellsCommit(tags: seq<Tag>, commit: CommitInfo) {
    && FirstNamed(tags, "commit") == Some(["commit", commit.id])
    && FirstNamed(tags, "parent-commit") == Some(["parent-commit", commit.parent])
    && FirstNamed(tags, "commit-pgp-sig") == Some(["commit-pgp-sig", commit.pgpSig])
    && FirstNamed(tags, "description") == Some(["description", commit.message])
    && FirstNamed(tags, "author") == Some(["author"] + commit.author)
    && FirstNamed(tags, "committer") == Some(["committer"] + commit.committer)
  }

  lemma {:induction false} PatchTagValues(ctx: Context, commit: CommitInfo, stamp: Stamp, thread: Option<EventId>,
      parent: Option<EventId>)
    requires WellFormedContext(ctx)
    ensures TellsCommit(PatchEvent(ctx, commit, stamp, thread, parent).tags, commit)
  {
    CommitTagValues(commit);
    CommitTagFound(ctx, commit, stamp, thread, parent, "commit");
    CommitTagFound(ctx, commit, stamp, thread, parent, "parent-commit");
    CommitTagFound(ctx, commit, stamp, thread, parent, "commit-pgp-sig");
    CommitTagFound(ctx, commit, stamp, thread, parent, "description");
    CommitTagFound(ctx, commit, stamp, thread, parent, "author");
    CommitTagFound(ctx, commit, stamp, thread, parent, "committer");
  }

  lemma {:induction false} CommitTagValues(commit: CommitInfo)
    ensures TellsCommit(CommitTags(commit), commit)
  {
    var tags := CommitTags(commit);
    var names := ["commit", "parent-commit", "commit-pgp-sig", "description", "author", "committer"];
    assert forall i | 0 <= i < 6 :: tags[i] != [] && tags[i][0] == names[i];
    assert forall i, j | 0 <= i < j < 6 :: names[i] != names[j] by {
      assert |names[0]| == 6 && |names[1]| == 13 && |names[2]| == 14 && |names[3]| == 11 && |names[4]| == 6 &&
        |names[5]| == 9;
      assert names[0][0] == 'c' && names[4][0] == 'a';
    }
    FirstNamedAt(tags, 0);
    FirstNamedAt(tags, 1);
    FirstNamedAt(tags, 2);
    FirstNamedAt(tags, 3);
    FirstNamedAt(tags, 4);
    FirstNamedAt(tags, 5);
  }

  lemma {:induction false} FirstNamedAt(tags: seq<Tag>, k: nat)
    requires k < |tags| && tags[k] != []
    requires forall i | 0 <= i < k :: tags[i] != [] && tags[i][0] != tags[k][0]
    ensures FirstNamed(tags, tags[k][0]) == Some(tags[k])
  {
    if k > 0 {
      FirstNamedAt(tags[1..], k - 1);
    }
  }
}
