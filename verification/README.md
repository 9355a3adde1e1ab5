# A verified model of ngit

ngit keeps a git repository's announcement, the state of its branches and tags, and its proposals as
signed events on nostr relays, and pushes to and fetches from ordinary git servers beside them. This
project models the parts of it that decide something, and proves what they promise.

| file | what it models |
|---|---|
| `Reader.dfy` | the streaming reader: a thread that strips ANSI escape codes into a channel, and a consumer that waits for a needle |
| `Commits.dfy` | the commit graph, ancestry, and the walk that tells how far two commits are ahead and behind |
| `Push.dfy` | push reconciliation: local tip, nostr's state and every git server's state, refspec by refspec |
| `RepoStates.dfy` | the state a push leaves, and the state event it travels in |
| `Events.dfy`, `Patches.dfy`, `Series.dfy` | events and their tags; patch series as threads; finding the newest chain of a proposal |
| `Letters.dfy` | what is read back of a proposal's title, description and branch |
| `Replay.dfy`, `RoundTrip.dfy` | replaying patches into commits and onto a branch; the whole way from commits to events and back |
| `Ids.dfy` | commit ids without collisions exist; a repository in which a series cannot be applied |
| `Reports.dfy`, `Fetch.dfy` | merging what relays report; the rounds of queries to one relay |
| `Discovery.dfy`, `Relays.dfy` | what a fetch from an honest relay comes to; the loop over all relays and what their reports come to |
| `Seen.dfy` | what a fetch sees and reports, told by the events alone; a series from sender to fetcher |
| `Maintainers.dfy`, `Announcement.dfy` | who maintains a repository according to the caches; the announcement event |
| `Config.dfy`, `NostrUrl.dfy` | two git config strings used as maps; nostr git urls |
| `Text.dfy`, `Codecs.dfy`, `Wrappers.dfy` | string operations, printers and parsers of library types, results |

`dafny verify dfyconfig.toml` checks everything.

## How libraries are modelled

* git is a map of commit objects with an injective id (`Replay.ContentAddressed`; hex text of any length, as
  no two of infinitely many commits may share one; `Ids.GitExists` makes such a git), a function that applies a diff to a tree, and revision
  walks. The source sets no sorting on its walks, and git2 then goes by commit dates, which can be skewed. What
  any walk has, its start first and each ancestor once, is `Commits.AnyWalk`; that children come before parents
  is `Commits.ValidWalk`, and `Commits.WalkExists` shows that every acyclic history has such a walk. Pushing is
  modelled for walks in any order; where a result needs children first, its contract says `ValidWalk`, `Walks` or
  `Push.Unskewed`.
* A relay is the finite set of events it may ever send. An answer is any part of it, in any order, whether
  or not it was asked for; an *honest* relay leaves out nothing that matches. Event ids are content hashes,
  so references between events go down a rank (`Fetch.Acyclic`, `Patches.Descends`).
* Keys, relay addresses, bech32 addresses, url queries and nip05 profiles are parameters with the laws that
  their printers and parsers have (`Codecs.Codec`, `NostrUrl.Library`). Percent-encoding is modelled in full,
  with the unreserved characters of section 2.3 of RFC 3986.
* The reader's streams are ASCII, and independence of timing is a statement about ASCII streams
  (`Reader.TimingFree`).
* The reader's thread is scheduled arbitrarily: `RunAWhile` lets it take any number of turns between two
  steps of the consumer, so each contract of the consumer holds for every interleaving.

## What does not hold, and what does instead

Several things that one would expect are false of the code. The code is kept as it is; the exact condition
under which the expectation is met is proved. Where the condition does not itself name an input that fails, a
lemma has one.

* A match found early need not be the one that the whole stream gives. For alternatives that are all strings, at
  whatever depth, it is if and only if none lies strictly inside another that can still be incomplete
  (`Reader.Ambiguous`; with `abc` and `b` it is not, `Reader.SomeAreAmbiguous`). If a byte count or the end of file
  is among them, it is if and only if no string can be found after one other character before every byte count is
  reached (`Reader.Intruded`). This covers every needle (`Reader.TimingFreeExactly`); a string or the end of file is
  the case of `Reader.TextOrEofTimingFree`.
* The source takes any tag with `root` in its second place for a marker, so a commit can be mistaken for a root
  or a cover letter because of its message, author name, committer name or signature, or of the branch name. A
  series is recovered whole if and only if no later commit says `root` there, and the first patch does not
  say `root` and `cover-letter` (`RoundTrip.CleanWords`, `RoundTrip.SeriesRoundTrip`). Of two commits, the second
  by an author called `root`, only the second patch is recovered (`RoundTrip.MistakenSeries`).
* A cover letter is read back as it was written if and only if its title is one line, its description has no space
  around it, and neither holds a line that opens with `diff --git`: the end of the message is counted from the wrong
  start. Near the start of the text such a line makes reading panic (`Letters.CoverLetterRoundTrip`,
  `Letters.CoverLetterPanics`).
* A proposal is found again under the name of the branch it was made on if and only if the name has only letters,
  digits, `/` and `-` and no more than 60 characters, or goes on with the start of its own id
  (`Letters.OwnBranchFound`).
* With merges, the ahead and behind lists can miss commits (`Commits.MergeHidesCommits`). Whatever children-first
  walk is taken, `behind` is exact if and only if every commit that only base has descends from every shared one
  (`Commits.BehindExactly`), and `ahead` if and only if one shared commit descends from all shared ones and every
  commit that only latest has descends from it (`Commits.AheadExactly`). Merge-free histories are one such case.
* A walk that gives a parent before its child can call a commit ahead of its own descendant
  (`Commits.SkewedWalkMisleads`): `ahead` is empty if and only if base's walk gives latest before any ancestor of
  latest (`Commits.AheadEmptyExactly`). When the scan fails, whether `behind` is empty, and that `behind` holds no
  ancestor of latest do not depend on the order of the walks (`Commits.AheadBehindMeaning`).
* So a push can be rejected although the server's value is within the pushed tip (`Push.InStepIsRejected`).
  A server is recorded as rejecting if and only if its value differs from nostr's and neither walk gives it before
  its ancestors (`Push.RejectedUnseen`). In any order this includes every server that is out of sync; with
  children first it is no other one (`Push.RejectedExactly`). That no work is lost holds in any order.
* A refspec for which a server needs a forced push is listed with a `+` and then dropped by the last filter,
  because it is no longer one of the inputs: a rewound branch reaches no server (`Push.NeededForceIsDropped`).
  What is listed and rejected nowhere is handed on if and only if it has its `+` already, deletes, makes a new
  ref, meets a server that is not in step with nostr, or has all that the server has
  (`Push.HandedUnlessForceNeeded`). The state that is published has the new value all the same
  (`RepoStates.PublishedNowhere`): it reaches some server if and only if some server needs no force
  (`RepoStates.PublishedReachesSome`).
* `RepoState::try_from` and `get_repo_ref_from_cache` sort by time and take the first: the *oldest* event, though
  a comment at `src/lib/client.rs:944-945` speaks of the most recent one. What is taken is a newest event if and
  only if all are equally old (`RepoStates.OldestIsNewest`, `Maintainers.OldestIsNewestOf`); a state that was
  replaced is still read (`RepoStates.OldStateIsRead`), and so is a first announcement
  (`Maintainers.FirstListingIsRead`).
* New state events are only reported when one is cached already: the newest seen is reported if and only if an older
  one is cached (`Fetch.NewestStateReported`), so the first state of a repository is fetched and not reported
  (`Discovery.FirstStateUnreported`).
* Applying what is missing of a chain to the branch that is the main branch, while it is checked out, fails; it
  succeeds if and only if there is another main branch to leave for (`Replay.Repo.CanLeave`,
  `Replay.Repo.ApplyPatchChain`, with the input in `Ids.ApplyOnMain`).
* A filter for announcements asks for every combination of the keys and identifiers of its coordinates
  (`Fetch.RepoFilterExact`). If announcements have one identifier each, as printed ones do, a fetch finds exactly what
  they lead to, from every honest relay, if and only if the requested coordinates share one identifier
  (`Discovery.DiscoveryExact`). If an announcement may be tagged with one identifier and parsed under another, only a
  request for nothing is safe (`Discovery.DiscoveryExactAnywhere`); what is found is then between the least set closed
  under the members' announcements and the least one closed under all that the filters match
  (`Discovery.DiscoveredBetween`).
* A preference set for a protocol is read back if and only if the protocol is not the unspecified one, whose
  name is written `unsepcified` and cannot be read, and the server's name has no `,` or `;`
  (`Config.GetAfterSet`); with such a name, another server's preference may change, unless nothing in the entry
  can be read (`Config.OthersKept`).
* An announcement is restored if and only if it has an identifier, a full root commit id or none, and a signer
  among the maintainers (`Announcement.AnnouncementRoundTrip`).
* A printed url is read back if and only if the library takes it for a url, it has at most one relay, which its hint
  gives back, no slash or question mark in its identifier, a protocol that urls can name, a user only with a protocol
  and without `.`, `@`, `/` and `?`, and an address, if any, that is not taken for something else and resolves to its
  key (`NostrUrl.Restorable`, `NostrUrl.UrlRoundTrip`).

## Model

| member | source | states |
|---|---|---|
| Reader.FindAnyIsLeast | crates/rexpect/src/reader.rs:86-98 | of several needles that match, the answer is at or before every other, by start and then by end |
| Reader.PlainNeedlesTimingFree | crates/rexpect/src/reader.rs:64-85 | a match found early by a string, a byte count or the end of file is the one the whole stream gives |
| Reader.AnyOfTextsTimingFree | crates/rexpect/src/reader.rs:86-98 | on ASCII streams, alternatives are free of timing if and only if no ASCII one has another strictly inside it that is found while it is incomplete |
| Reader.SomeAreAmbiguous | crates/rexpect/src/reader.rs:86-98 | waiting for `abc` or `b` depends on timing |
| Reader.TimingFreeExactly | crates/rexpect/src/reader.rs:64-99 | exactly when a needle of any shape, nested alternatives included, answers independently of when the text of an ASCII stream arrives |
| Reader.TextOrEofTimingFree | crates/rexpect/src/reader.rs:64-99 | a string or the end of file, as alternatives, is free of timing if and only if the string is empty or not ASCII, so that it never comes |
| Reader.StripKeepsVisible | crates/rexpect/src/reader.rs:136-168 | the one-flag loop drops exactly the escape characters and what follows them up to the next letter |
| Reader.StripAppend | crates/rexpect/src/reader.rs:136-168 | stripping does not depend on how the stream is cut into pieces, given the flag at the cut |
| Reader.NothingStripped | crates/rexpect/src/reader.rs:149-158 | with stripping off, what is sent is the stream itself |
| Reader.CodeStripped | crates/rexpect/src/reader.rs:149-158 | of text with an escape code in it, whatever comes before its first letter, stripping keeps all but the code and goes on after it |
| Reader.ReaderThread.Step | crates/rexpect/src/reader.rs:144-168 | one turn of the thread changes nothing about the text still to come or the whole stream, and makes progress |
| Reader.ReaderThread.TryRecv | crates/rexpect/src/reader.rs:181-200 | a receive takes the next pending character or the end of file and nothing else, whatever the thread did meanwhile |
| Reader.NBReader.ReadIntoBuffer | crates/rexpect/src/reader.rs:181-200 | filling the buffer neither loses nor reorders text, empties the channel, ends, and after the end of file nothing is pending |
| Reader.NBReader.ReadUntil | crates/rexpect/src/reader.rs:248-289 | for a needle free of timing the reply, match or error, depends on the undelivered stream alone; otherwise it is that of some prefix; a failed read consumes nothing |
| Reader.NBReader.TryRead | crates/rexpect/src/reader.rs:293-301 | gives the next undelivered character, or nothing and then consumes nothing |
| Reader.NBReader.Conservation | crates/rexpect/src/reader.rs:132-200 | in every reachable state, delivered text, buffer and channel are the stripped form of what was read, and with the rest of the stream, of all of it |
| Reader.NBReader.StreamDelivered | crates/rexpect/src/reader.rs:132-200 | with stripping off, delivered and undelivered text together are the whole stream, at every point |
| Reader.TextReply | crates/rexpect/src/reader.rs:64-85 | what a wait for a string comes to on a whole stream: all before its first occurrence and the string, or all of the stream as an error |
| Reader.OtherReplies | crates/rexpect/src/reader.rs:64-85 | and a wait for a byte count or the end of file: that many bytes, or what there is, or an error on an empty stream |
| Commits.GraphDescendantOf | src/lib/git/mod.rs:706-716 | is true exactly of proper ancestors, on any closed commit graph |
| Commits.WalkExists | src/lib/git/mod.rs:404-463 | every acyclic history has a children-first walk, so the walks assumed below exist |
| Commits.AheadBehindMeaning | src/lib/git/mod.rs:404-463 | on any history and for walks in any order: it fails exactly without a common ancestor, behind is empty exactly if latest reaches base, an empty ahead means that base reaches latest, behind holds no ancestor of latest; if base is walked children first, ahead is empty whenever base reaches latest |
| Commits.MergeFreeDifferences | src/lib/git/mod.rs:404-463 | without merges both lists are exactly the differences of the two ancestries |
| Commits.BehindExactly | src/lib/git/mod.rs:404-463 | behind is the difference of the ancestries for every children-first walk of base if and only if every commit only base has descends from every shared one |
| Commits.AheadExactly | src/lib/git/mod.rs:404-463 | ahead is the difference for every pair of children-first walks if and only if some shared commit descends from all shared ones and every commit only latest has descends from it |
| Commits.MergeHidesCommits | src/lib/git/mod.rs:404-463 | with a merge a commit that only base has can be missing from behind, and one that only latest has from ahead |
| Commits.AheadEmptyExactly | src/lib/git/mod.rs:404-463 | for walks in any order, ahead is empty if and only if base's walk gives latest before any ancestor of latest |
| Commits.SkewedWalkMisleads | src/lib/git/mod.rs:411-420 | a walk in an order that skewed dates allow makes ahead non-empty although base has latest |
| Commits.AheadReversedIsLinear | src/lib/git/mod.rs:404-463 | without merges the commits ahead, oldest first, are a chain of single parents on a common ancestor |
| Commits.GetCommitsAheadBehind | src/lib/git/mod.rs:404-463 | the two scanning loops find the first shared commit and what precedes it in either walk |
| Push.ForcedSameSides | src/bin/git_remote_nostr/push.rs:1453-1469 | a leading `+` changes neither side of a refspec, for every text |
| Push.SidesOf | src/bin/git_remote_nostr/push.rs:1453-1469 | the text before the `:` is what is pushed, the text after it where to |
| Push.ProposalsAre | src/bin/git_remote_nostr/push.rs:104-157 | whatever is pushed to `refs/heads/pr/` is a proposal, and `main` is none |
| Push.Classify | src/bin/git_remote_nostr/push.rs:714-858 | with walks in any order, the nested tests decide by containment where the behind test is used, by whether a walk gives the server's tip before its ancestors where the ahead test is, errors included |
| Push.NoLostWork | src/bin/git_remote_nostr/push.rs:703-878 | with walks in any order, when classification succeeds every refspec listed for a server, forced or not, that replaces a ref there has the server's tip reachable from the pushed tip or from nostr's value, or equal to the latter |
| Push.RejectedUnseen | src/bin/git_remote_nostr/push.rs:703-878 | with walks in any order, a refspec is recorded as rejected by a server if and only if that server's value differs from nostr's and is not held locally or given before its ancestors by neither walk |
| Push.RejectedExactly | src/bin/git_remote_nostr/push.rs:703-878 | with walks in any order, every server out of sync is recorded as rejecting: its value differs from nostr's and is not held locally or reachable from neither side; with children-first walks no other server is |
| Push.InStepIsRejected | src/bin/git_remote_nostr/push.rs:714-858 | in a repository with skewed commit dates, a push is rejected by a server whose value is within the pushed tip |
| Push.ForcedSameVerdict | src/bin/git_remote_nostr/push.rs:714-858 | spelling a refspec with `+` changes neither rejection nor failure |
| Push.CreateRejectedRefspecsAndRemotesRefspecs | src/bin/git_remote_nostr/push.rs:703-878 | over all servers and refspecs: exactly the rejecting servers are recorded for each refspec, no list holds a rejected refspec, and it fails exactly if some verdict is an error |
| Push.ServerOrderIrrelevant | src/bin/git_remote_nostr/push.rs:714-877 | the rejected refspecs, their servers and every server's list do not depend on the order of the servers |
| Push.RunPush | src/bin/git_remote_nostr/push.rs:62-157 | what is handed to a server is exactly the non-proposal refspecs that no server rejects and this one lists as given; it fails exactly without any state or with an unjudgeable refspec |
| Push.RejectedHandedToNone | src/bin/git_remote_nostr/push.rs:104-157 | a refspec that one server rejects is handed to no server, in either spelling |
| Push.HandedUnlessForceNeeded | src/bin/git_remote_nostr/push.rs:104-157 | a refspec that no server rejects is handed to a server that can judge it if and only if it deletes what the server has, or it is spelled with a `+`, makes a new ref, meets a server not in step with nostr, or has all that the server has |
| Push.DeletionHanded | src/bin/git_remote_nostr/push.rs:720-727 | a deletion is handed to exactly the servers that have the ref, whatever else is pushed |
| Push.NeededForceIsDropped | src/bin/git_remote_nostr/push.rs:104-157 | in a repository whose branch was rewound, pushing it without `+` is rejected nowhere and handed to no server, with `+` it is handed on |
| Push.PushedWithoutLoss | src/bin/git_remote_nostr/push.rs:104-157 | whatever is handed to a server without a `+` and replaces a ref there has the server's tip within the pushed tip, or, where nostr has another value for that ref, within that value |
| RepoStates.GenerateUpdatedState | src/bin/git_remote_nostr/push.rs:880-926 | after a batch every ref has what the last refspec that targets it decides, tags and their peeled entries included; it fails exactly on an unresolvable refspec |
| RepoStates.ResolvableExactly | src/bin/git_remote_nostr/push.rs:880-926 | the update fails on exactly what has no `:`, names an unknown source, or pushes a tag that has no tag object |
| RepoStates.UntouchedKept | src/bin/git_remote_nostr/push.rs:880-926 | a ref that no refspec targets keeps its entry |
| RepoStates.LastRefspecMeans | src/bin/git_remote_nostr/push.rs:880-926 | what the last refspec for a ref leaves: a branch at the commit pushed; a tag at its tag object, and `^{}` at the commit; nothing of either after a deletion |
| RepoStates.TagsAre | src/bin/git_remote_nostr/push.rs:880-926 | names under `refs/tags/` are tags, `refs/heads/main` is none |
| RepoStates.LastTargetDecides | src/bin/git_remote_nostr/push.rs:880-926 | no earlier refspec of a batch shows through a later one for the same ref |
| RepoStates.PairingPreserved | src/bin/git_remote_nostr/push.rs:880-926 | tag by tag: a batch leaves no peeled entry without its tag, and no tag without its peeled entry, unless it was so before |
| RepoStates.PublishedIsHanded | src/bin/git_remote_nostr/push.rs:104-157 | the value that is published for a branch or tag, the commit or the tag object, is handed to exactly the servers that need no force; those that need it stay at another value, nostr's old one |
| RepoStates.PublishedReachesSome | src/bin/git_remote_nostr/push.rs:104-157 | so it reaches some server if and only if some server needs no force |
| RepoStates.DeletionIsHanded | src/bin/git_remote_nostr/push.rs:104-157 | a deletion takes the entry out of the state that is published and reaches exactly the servers that have the ref |
| RepoStates.PublishedNowhere | src/bin/git_remote_nostr/push.rs:104-157 | for a rewound branch the new value is published, rejected nowhere and handed to no server |
| RepoStates.Build | src/bin/git_remote_nostr/push.rs:1538-1562 | the event carries the identifier first, and one tag for each entry of the state |
| RepoStates.TryFrom | src/lib/repo_state.rs:13-40 | parses the oldest of the events, keeping for each admissible name the last admissible value; it fails exactly on no events or no identifier |
| RepoStates.OldestIsNewest | src/lib/repo_state.rs:13-18 | the state event taken is a newest one if and only if all are equally old |
| RepoStates.OldStateIsRead | src/lib/repo_state.rs:13-40 | of a state and the one that replaces it, the old one is read |
| RepoStates.StateRoundTrip | src/lib/repo_state.rs:13-40 | a published state is parsed to the same identifier and to the same map restricted to admissible names and values |
| RepoStates.BranchesRoundTrip | src/lib/repo_state.rs:13-40 | branches, tags and peeled tags at 40-digit ids, and `HEAD` at a reference, are published and read back |
| RepoStates.ReadIsAdmissible | src/lib/repo_state.rs:13-40 | nothing is read but branches, tags and `HEAD`, and of those nothing but ids and references |
| Events.SortByTimeSorts | src/lib/git_events.rs:572-592 | sorting by time keeps the events and, among equally old ones, their order |
| Patches.SomeUnreplied | src/lib/git_events.rs:578-592 | among equally young patches with acyclic parents one has no reply among them |
| Patches.TipFound | src/lib/git_events.rs:578-592 | the search for the newest patch never fails; it finds one that no patch is younger than and none as young replies to |
| Patches.GetMostRecentPatchWithAncestors | src/lib/git_events.rs:572-613 | the walk ends; the chain starts at that patch, each element is the parent of the one before, none repeats, and it stops only at a root or a missing parent |
| Patches.GetAllProposalPatchEventsFromCache | src/lib/client.rs:1658-1719 | selects exactly the proposal's patches and its revisions' by its author or a maintainer, without cover letters; it fails exactly when the proposal is not cached |
| Patches.SelectedExactly | src/lib/client.rs:1658-1719 | whether an event is selected, told by its kind, author and tags alone |
| Series.GenerateCoverLetterAndPatchEvents | src/lib/git_events.rs:330-473 | the events form one thread: each replies to the one before, all under the first, in the order of the commits |
| Series.ReplyParent | src/lib/git_events.rs:615-631 | the parent read from a generated patch is the event it was generated as a reply to |
| Series.ReplyMentionsThread | src/lib/git_events.rs:87-254 | every later patch of a series refers to the series' first event |
| Series.ReplySays | src/lib/git_events.rs:61-75 | a later patch is taken for a root only because of its commit's message, names or signature |
| Series.FirstSays | src/lib/git_events.rs:61-75 | the first event says its markers, what its branch name says and what its commit says, and no other word |
| Series.PatchTagValues | src/lib/git_events.rs:87-254 | the commit, parent, signature, message, author and committer are read back from a patch as they were written, whatever mentions and repository precede them |
| Series.SeriesAddressed | src/lib/git_events.rs:87-473 | every event of a series is addressed to the repository under each maintainer and to each maintainer, and the first to what it mentions besides; to nothing else |
| Series.SeriesRefers | src/lib/git_events.rs:87-473 | every event of a series is its signer's and refers to the root commit; a patch refers to its commit and holds its text |
| Letters.CoverLetterRoundTrip | src/lib/git_events.rs:510-556 | a cover letter's title and description are read back as written if and only if the title is one line, the description has no space around it, and the line that opens a diff is not in them |
| Letters.CoverLetterRead | src/lib/git_events.rs:510-556 | without such a line the title read is the first line, and the description what follows, trimmed |
| Letters.CoverLetterPanics | src/lib/git_events.rs:510-526 | reading panics if and only if such a line stands nearer to the start of the text than the text to the start of the content |
| Letters.PatchLetter | src/lib/git_events.rs:510-556 | the title and description of a proposal without cover letter are those of its first commit's message |
| Letters.FirstNamesBranch | src/lib/git_events.rs:384-467 | the first event of a series, cover letter or patch, carries the branch's name, signer and id |
| Letters.BranchRead | src/lib/git_events.rs:384-467 | that name is the checked-out branch without `pr/`, cut at 60 characters, and none for a main branch |
| Letters.FoundByBranch | src/lib/git_events.rs:633-650 | under which branch names a proposal is found: for its author by its name, for anybody by its name with the start of its id, and by no other |
| Letters.OwnBranchFound | src/lib/git_events.rs:558-650 | whoever makes a proposal on a branch finds it again under the branch's name if and only if that has only letters, digits, `/` and `-` and at most 60 characters, or goes on with the start of the proposal's id in brackets |
| RoundTrip.ThreadRecovered | src/lib/git_events.rs:572-613 | a thread among other events is recovered whole, newest first, if and only if nothing in it is mistaken for a root or a cover letter |
| RoundTrip.SeriesRoundTrip | src/lib/git_events.rs:330-473 | a published series, selected from the cache in any order, is recovered as exactly its patches, newest first, if and only if no word of its commits or branch is in the way |
| RoundTrip.MistakenSeries | src/lib/git_events.rs:572-631 | of a published series whose second author is called `root`, recovery gives the second patch alone |
| RoundTrip.SeriesDescribes | src/lib/git_events.rs:330-473 | the patches of a linear range describe its commits and apply on top of each other |
| RoundTrip.RecoveredSeriesReplays | src/bin/git_remote_nostr/fetch.rs:88-129 | what is recovered of a clean series is what replaying needs to return the range's original tip |
| Replay.Repo.CreateCommitFromPatch | src/lib/git/mod.rs:559-661 | a held commit is not made again; any other is made exactly if the parent is held, the diff applies and the tags can be read, and then has, on the parent asked for or named, the tree with the diff applied and the author, committer and message of the patch; without another parent success means the announced id; objects only grow |
| Replay.Repo.MakeCommitsForProposal | src/bin/git_remote_nostr/fetch.rs:88-129 | the patches, oldest first, become commits one on top of the other, from the parent that the oldest names, or else the tip of the main branch; a failure is that of the first patch that cannot be a commit; of a series the original commits come back, up to the original tip |
| Replay.RunMakes | src/bin/git_remote_nostr/fetch.rs:107-128 | every commit that such a run adds is some patch's, on the commit before it |
| Replay.MainNameIs | src/lib/git/mod.rs:115-171 | the main branch is the remote `main`, else the remote `master`, else the local `main`, else the local `master`; there is none exactly without any of the four |
| Replay.CommitIdOfMail | src/lib/git_events.rs:27-37 | without a `commit` tag the id is read from the first line of the mail, if anything follows it |
| Replay.Repo.Checkout | src/lib/git/mod.rs:465-479 | moves nothing but HEAD: to the branch, else to the remote branch or commit of that name; it fails exactly if there is none |
| Replay.Repo.CreateBranchAtCommit | src/lib/git/mod.rs:481-500 | sets the branch, leaves HEAD where it was and touches no other branch; it fails exactly on a missing commit or a checked-out branch that cannot be left |
| Replay.PresentFirst | src/lib/git/mod.rs:507-525 | the commits of a series that a branch holds already are its oldest ones |
| Replay.MissingOfSeries | src/lib/git/mod.rs:507-525 | filtering out the patches whose commits are held leaves exactly the newest ones, in order |
| Replay.Repo.ApplyPatchChain | src/lib/git/mod.rs:502-557 | the branch ends checked out at the newest patch's commit with the whole chain in its ancestry, the patches applied are returned, every other branch stays, and it fails exactly if the branch cannot be left |
| Ids.GitExists | src/lib/git/mod.rs:559-661 | the assumptions on commit ids can be met: an injective id in hex of every commit |
| Ids.ApplyOnMain | src/lib/git/mod.rs:502-557 | in a concrete repository with only the branch `main`, applying a patch on its tip to it fails |
| Replay.NewestReaches | src/lib/git/mod.rs:502-557 | once its commits are held, the newest of a series has all others as ancestors, in order |
| Replay.SecondApplicationEmpty | src/lib/git/mod.rs:502-557 | after an application the whole series counts as present, so a second one finds nothing to apply |
| Reports.NewerIsOrder | src/lib/client.rs:1306-1318 | later time, then greater id, is a strict total order on state events |
| Reports.IdLessMeans | src/lib/client.rs:1306-1318 | ids are compared at their first difference, the shorter first |
| Reports.ConsolidateFetchReports | src/lib/client.rs:1362-1416 | the merged report is the union of those that arrived, with the newest state and one entry per updated announcement with its greatest time |
| Reports.MergeOrderIrrelevant | src/lib/client.rs:1362-1416 | the same reports in any order, or repeated, merge into the same report |
| Reports.MergedStateIsBest | src/lib/client.rs:1362-1416 | the merged state is the newest state event that any relay showed and that beats the cached one |
| Fetch.AnnouncementsAsked | src/lib/client.rs:1417-1474 | of all filters of a round, an announcement matches exactly by an author and an identifier of the fresh coordinates |
| Fetch.PatchesAskedByThread | src/lib/client.rs:1417-1456 | without fresh coordinates a patch is only asked for as a reply to a fresh root |
| Fetch.RepoFilterExact | src/lib/client.rs:1458-1474 | the filter matches exactly its coordinates' announcements if and only if these are all combinations of their keys and identifiers |
| Fetch.FiltersMean | src/lib/client.rs:1417-1500 | the filters of a round match exactly states and announcements by the keys and under the identifiers of the coordinates, patches and deletions under their addresses, patches, deletions and statuses that mention a root, and profiles and relay lists of the keys |
| Fetch.NextStateIsBest | src/lib/client.rs:1306-1318 | the update rule keeps the newest state event seen that beats the cached one |
| Fetch.NewestStateReported | src/lib/client.rs:1306-1318 | the newest state event seen is reported if and only if a state is cached that it beats |
| Fetch.ProcessEvent | src/lib/client.rs:1229-1342 | what one event adds: unknown maintainers' coordinates with their profiles, a root with its author, a newer state, announcement and profile updates |
| Fetch.ProcessFetchedEvents | src/lib/client.rs:1220-1360 | the outcome of a batch depends on its events as a set: fresh coordinates, roots and profiles, best state, and as commits and statuses those under no new proposal |
| Fetch.ReportDetermined | src/lib/client.rs:1220-1360 | what is reported of coordinates, proposals, state, announcements and profiles depends on the events seen alone, not on order or rounds |
| Fetch.RootsClimb | src/lib/client.rs:548-601 | fresh roots that all reply to the previous ones lie strictly higher in the threads |
| Fetch.RoundAdvances | src/lib/client.rs:548-601 | a round that finds anything finds a new coordinate, or is the first after one that did, or climbs: the loop's measure falls |
| Fetch.FetchAllFromRelay | src/lib/client.rs:512-616 | the loop ends against any relay, even one that sends what was not asked for; what it reports is what the events seen amount to, nothing is seen that what became known does not ask for, nothing found that announcements do not lead to, and commits and statuses under no reported proposal are all reported; from an honest relay it has everything about every known coordinate, root and profile, and comes to the one outcome of `Fetch.OutcomeAt` |
| Discovery.HonestRunsAgree | src/lib/client.rs:512-616 | two fetches from one honest relay for one request see the same events and report the same, commits and statuses included |
| Discovery.HonestRunExists | src/lib/client.rs:512-616 | every request has such an outcome from every relay with acyclic threads |
| Discovery.LeastDiscovered | src/lib/client.rs:548-601 | for coordinates under one identifier and announcements with one name, what an honest relay makes known is the least set with what was requested that is closed under its new, parseable announcements |
| Discovery.DiscoveryExact | src/lib/client.rs:548-601 | that holds of every honest relay with singly named announcements if and only if the requested coordinates share one identifier |
| Discovery.DiscoveredBetween | src/lib/client.rs:548-601 | whatever identifiers announcements have: what an honest relay makes known is closed under its members' announcements and within every set closed under those by a member's key with a member's identifier |
| Discovery.DiscoveryExactAnywhere | src/lib/client.rs:548-601 | with announcements that may have several identifiers, it is the least closed set on every honest relay if and only if nothing is requested |
| Discovery.FirstStateUnreported | src/lib/client.rs:1306-1318 | with no state cached, the first state of a repository is received from an honest relay and not reported |
| Relays.AllRelaysMerged | src/lib/client.rs:1362-1416 | over all relays, some asked for profiles alone: the merged report has the newest state event shown that beats the cached one, the coordinates and proposals that the events shown anywhere amount to, one entry with the greatest time per updated announcement, the profiles that each relay was asked for and showed, and as commits and statuses only what was shown, at least all under no reported proposal |
| Relays.FetchAll | src/lib/client.rs:340-511 | the loop over relays ends, whatever the caches list from round to round among finitely many addresses; no relay is asked twice, each for everything or for profiles alone as its round's lists say, and all relays listed in any round up to the end have been asked; an honest relay's report is its one outcome |
| Relays.AskedExactly | src/lib/client.rs:366-421 | the relays asked are exactly those that some round lists, but for the one that only passes events on; each for everything if it was the repository's at that round, and otherwise for profiles alone |
| Seen.AboutKnownSeen | src/lib/client.rs:1417-1500 | from an honest relay a fetch sees every patch and deletion under the address of a known coordinate, and every state and announcement by its key under its identifier |
| Seen.UnderProposalSeen | src/lib/client.rs:1446-1451 | and every patch, deletion and status that mentions a proposal known or reported |
| Seen.ProfilesSeen | src/lib/client.rs:548-601 | and the profiles and relay lists of the keys asked for, of the maintainers found and of the authors of the proposals found |
| Seen.ProposalsMean | src/lib/client.rs:1319-1326 | the proposals reported are exactly the new patches seen that say `root` |
| Seen.CoordinatesMean | src/lib/client.rs:1268-1305 | the coordinates reported are exactly those that new announcements seen list and the request does not |
| Seen.NewProfilesMean | src/lib/client.rs:1327-1342 | the profiles reported as new are exactly the missing ones of which metadata or a relay list was seen |
| Seen.UpdatedProfilesMean | src/lib/client.rs:1327-1342 | those reported as updated are exactly the known ones of which newer metadata than its time, or a newer relay list than its other time, was seen |
| Seen.AnnouncementReported | src/lib/client.rs:1234-1264 | an announcement is reported as updated if and only if the newest seen is newer than the cached one, or none is cached, and then with that time |
| Seen.StateReported | src/lib/client.rs:1306-1318 | with a state cached, the newest seen is reported if and only if it is later, or as late with the greater id |
| Seen.RepliesMean | src/lib/client.rs:1345-1358 | the commits and statuses reported were seen, new, and no roots; all of these under no proposal reported are reported |
| Seen.AsOneRelay | src/lib/client.rs:1362-1416 | but for the profiles, what all relays together come to is what one relay that showed everything would |
| Seen.MergedAnnouncement | src/lib/client.rs:1362-1416 | of an announcement the merged report has exactly the newest that any relay showed, if that is newer than the cached one |
| Seen.SeriesFetched | src/lib/client.rs:512-616 | whoever fetches a repository from an honest relay that holds a series for it sees the whole series and is told of the proposal |
| Seen.FetchedSeriesRecovered | src/lib/client.rs:1658-1719 | and then recovers it whole from a cache that has what was fetched, if and only if no word of its commits or branch is in the way |
| Maintainers.FindMaintainers | src/lib/client.rs:871-916 | the loop ends with the least set of keys that has the trusted maintainer and whoever its members' parseable announcements list |
| Maintainers.GetRepoRefFromCache | src/lib/client.rs:871-950 | those are the maintainers; the rest is read from the oldest of their announcements, each maintainer's oldest is kept, and it fails exactly when the trusted maintainer has none |
| Maintainers.OldestIsNewestOf | src/lib/client.rs:917-950 | the announcement that the repository is read from is a newest one if and only if all are equally old |
| Maintainers.FirstListingIsRead | src/lib/client.rs:917-950 | of two announcements by one maintainer the first is read |
| Announcement.TryFrom | src/lib/repo_ref.rs:50-137 | reading tag by tag gives each field its last value and collects relays and maintainers in order, the signer first where a list leaves it out; unreadable keys fail |
| Announcement.PartsRead | src/lib/repo_ref.rs:70-95 | identifier, name, description, root commit, git servers and web pages are what the last tag of each name holds |
| Announcement.PartsHaveTags | src/lib/repo_ref.rs:70-95 | and nothing else: each part that is not empty is what some tag of its name holds, and a root commit is 40 hex digits in a tag with no third value but `euc` |
| Announcement.MembersRead | src/lib/repo_ref.rs:96-122 | every readable relay and every maintainer that some tag lists is one, and the signer always maintains |
| Announcement.PrintedIsParsed | src/lib/repo_ref.rs:140-202 | what every printed announcement is parsed to, the incomplete ones included |
| Announcement.AnnouncementRoundTrip | src/lib/repo_ref.rs:50-202 | printing and parsing restores all fields in order if and only if there is an identifier, a full root commit id or none, and the signer is a maintainer |
| Announcement.ListingsSinglyNamed | src/lib/repo_ref.rs:68-71 | an announcement with one identifier tag is parsed under the only identifier it can be asked for by |
| Announcement.PrintedDiscovered | src/lib/repo_ref.rs:140-202 | a fetch for one identifier, from an honest relay whose announcements this program printed, finds exactly what they lead to |
| Announcement.Coordinates | src/lib/repo_ref.rs:204-226 | one coordinate for the trusted maintainer and each maintainer, under the repository's identifier, and no others |
| Config.ShownIsParsed | src/lib/git/nostr_url.rs:23-56 | every protocol but the unspecified one is read as it is written |
| Config.GetProtocolPreference | src/bin/git_remote_nostr/utils.rs:306-329 | gives the first readable entry for the server |
| Config.LeadingEntry | src/bin/git_remote_nostr/utils.rs:306-329 | an entry `protocol,server;` is the preference for its server and is passed over for any other, for each of the eight names |
| Config.SetProtocolPreference | src/bin/git_remote_nostr/utils.rs:331-358 | rewrites the list to the entries about other servers, in order, and the new one |
| Config.GetAfterSet | src/bin/git_remote_nostr/utils.rs:306-358 | the preference read is the one set if and only if the protocol has a readable name and the server's name no delimiter |
| Config.OthersKept | src/bin/git_remote_nostr/utils.rs:306-358 | setting, for any protocol, never changes another server's preference if and only if the server's name has no delimiter or nothing in the entry can be read |
| Config.OneEntry | src/bin/git_remote_nostr/utils.rs:331-358 | setting leaves exactly one entry for the server and as many as before for every other if and only if the server's name has no delimiter |
| Config.LoadNipCache | src/lib/git/nostr_url.rs:284-297 | reads the pairs in order, the last one for an address deciding, and skips what cannot be read |
| Config.LastPair | src/lib/git/nostr_url.rs:284-297 | the last `address:key` of the list decides for its address, if the key can be read, and for no other |
| Config.SaveNip05 | src/lib/git/nostr_url.rs:266-282 | writes all old entries and the new one, each once, in some order |
| Config.SavedIsLoaded | src/lib/git/nostr_url.rs:266-297 | loading what was saved gives the old cache with the one address updated if and only if the address has no delimiter |
| NostrUrl.EncodedIsDecoded | src/lib/git/nostr_url.rs:86-95 | percent-decoding undoes percent-encoding |
| NostrUrl.SchemeRestored | src/lib/git/nostr_url.rs:86-95 | a relay's address is rebuilt from its shortened form if and only if it names its scheme only once |
| NostrUrl.HintIsRead | src/lib/git/nostr_url.rs:183-193 | such a relay is read back from its printed hint, which holds no separator |
| NostrUrl.ReadBack | src/lib/git/nostr_url.rs:67-245 | what a printed url with a plain login, a readable address and relay and a slash-free identifier is parsed to: everything it had, with its first relay only |
| NostrUrl.ParseAndResolve | src/lib/git/nostr_url.rs:103-245 | query, login, owner, relays and identifier are taken apart as specified, with every error case |
| NostrUrl.AddressRead | src/lib/git/nostr_url.rs:165-180 | a url that holds an event's address gives the announcement's key, identifier and relays, with the user and protocol before it, and is refused for any other event |
| NostrUrl.OwnersUrlRead | src/lib/git/nostr_url.rs:181-245 | any other url gives its owner's key, read, cached or looked up, its relays, secure websockets where no scheme is named, or those of the profile, and last the identifier |
| NostrUrl.ParameterRead | src/lib/git/nostr_url.rs:112-135 | the last `user` and the last `protocol` of the query count, and every relay |
| NostrUrl.PlainLoginRead | src/lib/git/nostr_url.rs:137-162 | whatever is read back from a printed url, its user has no `.`, `@` or `/` and its protocol is one of four |
| NostrUrl.UserNeedsProtocol | src/lib/git/nostr_url.rs:67-98 | a user printed without a protocol is read as part of the owner |
| NostrUrl.QuestionMarkLost | src/lib/git/nostr_url.rs:103-135 | an identifier with a question mark is never read back |
| NostrUrl.QueriedUser | src/lib/git/nostr_url.rs:103-162 | a user with a question mark is only ever read from the query |
| NostrUrl.AskingUserLost | src/lib/git/nostr_url.rs:67-245 | a url without a relay whose user has a question mark is never read back: the query that opens is too short to name that user |
| NostrUrl.UrlRoundTrip | src/lib/git/nostr_url.rs:67-245 | parsing a printed url restores key, identifier, relay, protocol, user and address if and only if it is a url with at most one relay, which its hint gives back, an identifier without slash and question mark, a writable protocol, a plain user only with a protocol, and an address that is read as one and resolves |
| NostrUrl.Print | src/lib/git/nostr_url.rs:67-98 | the text written is parsed back, whatever is cached, if and only if the url is restorable |

## Left out

- Regex needles, timeouts, read errors and non-ASCII bytes in the reader: they rest on clocks and libraries, and bytes pushed as chars break length arithmetic above 127.
- Scheduling of the reader's thread: `NBReader.WaitFor` gives the thread at least one turn while the consumer sleeps; without that no bound on the waiting exists.
- git internals: diff text, patch application, signing, the working tree and an unborn HEAD; checkout is modelled as far as HEAD goes, and `git.Apply` stands for applying a diff.
- How git resolves names: `get_commit_or_tip_of_reference` and `revparse` are a map of names, ids are written in full; a hex text too long for an id, on which the source panics, is an unknown id here.
- Annotated tags: `generate_updated_state` panics on a tag that has no tag object; the model has that as an error.
- The series numbers and mail subject inside a patch's text, and `sub_commands` that choose the commits of a series.
- Letters.CoverLetterRoundTrip: offsets into a text count characters; the source counts bytes, which differ past ASCII where a diff's opening line cuts the text.
- Letters.FoundByBranch: for a proposal that can be read and is no revision, takes as given that the branch has no `refs/heads/` inside its name, all of which the source removes.
- Network, databases and saving to caches: relays and caches are finite sets of events, and `processed` events stand for those saved.
- How the caches' relay lists change between the rounds of `fetch_all`: any change is allowed.
- Fetch.FetchAllFromRelay: of a relay that is not honest, leaves open whether a commit or status seen before its proposal is reported, since the source decides that by the round in which each turned up.
- Relays.AllRelaysMerged: for the same reason leaves open, of commits and statuses under a reported proposal, which are reported.
- Maintainers.GetRepoRefFromCache: leaves open which of two equally old announcements is taken.
- NostrUrl.UrlRoundTrip: takes as given that not both a relay and a user with a question mark are there: then the url opens a query itself, and whether that could name this user rests on how relay addresses are normalised, which is not part of this model; `NostrUrl.QueriedUser` says what is needed for it.
- RoundTrip.SeriesRoundTrip: takes as given that other patches of the proposal are older than the newest of the series and that the events were signed in order; git ids and keys are hex.
- `CloneUrl` parsing and formatting and the order of protocols to try: they rest on the `url` crate, which is not part of this model.
- Bech32, and percent-decoding to bytes above 127: parameters, or refused.
- Merged proposals, statuses and revisions on push (`get_merged_proposals_info`, `create_merge_events`), and pushing proposal branches.
- Progress bars, prompts, login flows, listing commands and messages: I/O and display only.
