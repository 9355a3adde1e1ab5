/** Cover letters: what is read back of a proposal's title, description and branch. */
module Letters {
  import opened Wrappers
  import opened Text
  import opened Events
  import opened Series

  datatype CoverLetter = CoverLetter(title: string, description: string, branchName: string, eventId: EventId)

  datatype LetterError = NotARoot | NotAPatch | Panic

  // ---------------------------------------------------------------- reading

  /** Characters of Unicode's `White_Space`. */
  predicate IsSpace(c: char) {
    || 9 <= c as int <= 13 || c as int in {0x20, 0x85, 0xA0, 0x1680, 0x2028, 0x2029, 0x202F, 0x205F, 0x3000}
    || 0x2000 <= c as int <= 0x200A
  }

  function TrimStart(s: string): string {
    if s != "" && IsSpace(s[0]) then TrimStart(s[1..]) else s
  }

  function TrimEnd(s: string): string {
    if s != "" && IsSpace(s[|s| - 1]) then TrimEnd(s[..|s| - 1]) else s
  }

  /** `str::trim` */
  function Trim(s: string): string {
    TrimEnd(TrimStart(s))
  }

  const DIFF := "\ndiff --git"

  /** `commit_msg_from_patch`. The end of the message is looked for in what follows its start, but counted from the
      start of the content: a slice that ends before it begins panics. */
  function MessageOf(e: Event): Result<string, LetterError> {
    match TagValue(e.tags, "description")
    case Some(message) => Ok(message)
    case None =>
      match FirstOccurrence("] ", e.content, 0)
      case None => Err(NotAPatch)
      case Some(i) =>
        match FirstOccurrence(DIFF, e.content[i + 2..], 0)
        case None => Ok(e.content[i + 2..])
        case Some(j) => if j < i + 2 then Err(Panic) else Ok(e.content[i + 2..j])
  }

  function FirstLine(message: string): (r: string)
    ensures r <= message
  {
    FirstPiece(message, '\n');
    Split(message, '\n')[0]
  }

  lemma {:induction false} FirstPiece(s: string, d: char)
    ensures Split(s, d)[0] <= s
  {
    if s != "" && s[0] != d {
      FirstPiece(s[1..], d);
      assert s == [s[0]] + s[1..];
    }
  }

  function SafeChar(c: char): char {
    if 'a' <= c <= 'z' || 'A' <= c <= 'Z' || '0' <= c <= '9' || c == '/' then c else '-'
  }

  /** `safe_branch_name_for_pr` */
  function SafeName(s: string): string {
    seq(if |s| > 60 then 60 else |s|, i requires 0 <= i < |s| => SafeChar(s[i]))
  }

  /** `event_to_cover_letter` */
  function LetterOf(e: Event): Result<CoverLetter, LetterError> {
    if !IsPatchSetRoot(e) then Err(NotARoot)
    else
      var message :- MessageOf(e);
      var title := FirstLine(message);
      var named := TagValue(e.tags, "branch-name");
      Ok(CoverLetter(title, Trim(message[|title|..]),
        if named.Some? && named.value !in ["main", "master"] then SafeName(named.value) else SafeName(title), e.id))
  }

  /** `is_event_proposal_root_for_branch`, of a name that may start with `refs/heads/`. */
  predicate IsProposalOfBranch(e: Event, branch: string, user: Option<PublicKey>) {
    var name := Remove(branch, "refs/heads/");
    LetterOf(e).Ok? && !IsRevisionRoot(e) &&
    var letter := LetterOf(e).value;
    || (user == Some(e.pubkey) && name == "pr/" + letter.branchName)
    || name == "pr/" + letter.branchName + "(" + Shorthand(letter.eventId) + ")"
  }

  /** The first digits of an id. */
  function Shorthand(id: EventId): string {
    if |id| < 8 then id else id[..8]
  }

  // ---------------------------------------------------------------- trimming

  predicate IsTrimmed(s: string) {
    s == "" || (!IsSpace(s[0]) && !IsSpace(s[|s| - 1]))
  }

  lemma {:induction false} StartTrimmed(s: string)
    ensures |TrimStart(s)| <= |s| && (TrimStart(s) == "" || !IsSpace(TrimStart(s)[0]))
  {
    if s != "" && IsSpace(s[0]) {
      StartTrimmed(s[1..]);
    }
  }

  lemma {:induction false} EndTrimmed(s: string)
    ensures TrimEnd(s) <= s && (TrimEnd(s) == "" || !IsSpace(TrimEnd(s)[|TrimEnd(s)| - 1]))
  {
    if s != "" && IsSpace(s[|s| - 1]) {
      EndTrimmed(s[..|s| - 1]);
    }
  }

  /** Trimming leaves exactly what is trimmed as it is. */
  lemma {:induction false} TrimmedIsKept(s: string)
    ensures IsTrimmed(Trim(s)) && |Trim(s)| <= |s|
    ensures Trim(s) == s <==> IsTrimmed(s)
  {
    StartTrimmed(s);
    EndTrimmed(TrimStart(s));
  }

  lemma {:induction false} BlankLineTrimmed(s: string)
    ensures Trim("\n\n" + s) == Trim(s)
  {
    assert ("\n\n" + s)[1..] == "\n" + s && ("\n" + s)[1..] == s;
    assert TrimStart("\n\n" + s) == TrimStart("\n" + s) == TrimStart(s);
  }

  // ---------------------------------------------------------------- tags of the first event

  ghost predicate PlainlyNamed(tags: seq<Tag>) {
    forall i | 0 <= i < |tags| :: tags[i] != [] && tags[i][0] in ["a", "r", "alt", "t", "e", "p"]
  }

  /** Tags that describe a commit are not those named so. */
  lemma {:induction false} PlainlyUnnamed(tags: seq<Tag>, name: string)
    requires PlainlyNamed(tags) && |name| > 3
    ensures FirstNamed(tags, name) == None
  {
    forall i | 0 <= i < |tags|
      ensures tags[i][0] != name
    {
      assert |tags[i][0]| <= 3;
    }
    NotNamed(tags, name);
  }

  lemma {:induction false} PartsPlainlyNamed(ctx: Context, commit: CommitInfo, title: string)
    requires WellFormedContext(ctx)
    ensures PlainlyNamed(CoordinateTags(ctx.repo, ctx.repo.maintainers)) && PlainlyNamed(OpeningTags(ctx, commit))
    ensures PlainlyNamed(CoverTags(ctx, title)) && PlainlyNamed(ThreadTags(ctx, None)) && PlainlyNamed(ctx.mentions)
    ensures PlainlyNamed(PersonTags(ctx.repo.maintainers))
  {
    Words();
    CoordinateTagsFacts(ctx.repo, ctx.repo.maintainers, "root");
    PersonTagsFacts(ctx.repo.maintainers, "root");
  }

  lemma {:induction false} BothPlainlyNamed(a: seq<Tag>, b: seq<Tag>)
    requires PlainlyNamed(a) && PlainlyNamed(b)
    ensures PlainlyNamed(a + b)
  {}

  /** Between tags of other names, a tag is found where it is. */
  lemma {:induction false} FoundBetween(before: seq<Tag>, tags: seq<Tag>, after: seq<Tag>, name: string)
    requires FirstNamed(before, name) == None && FirstNamed(after, name) == None
    ensures FirstNamed(before + (tags + after), name) == FirstNamed(tags, name)
  {
    FirstNamedConcat(tags, after, name);
    FirstNamedConcat(before, tags + after, name);
  }

  lemma {:induction false} CoverGrouped(a: seq<Tag>, b: seq<Tag>, c: seq<Tag>, d: seq<Tag>, e: seq<Tag>, f: seq<Tag>)
    ensures a + b + c + d + e + f == (a + b + c + d) + (e + f)
  {}

  lemma {:induction false} PatchGrouped(a: seq<Tag>, b: seq<Tag>, c: seq<Tag>, d: seq<Tag>, e: seq<Tag>, f: seq<Tag>,
      g: seq<Tag>)
    ensures a + (b + (c + (d + ([] + (e + f))))) + g == (a + b + c + d) + (e + (f + g))
  {}

  lemma {:induction false} FourPlainlyNamed(a: seq<Tag>, b: seq<Tag>, c: seq<Tag>, d: seq<Tag>)
    requires PlainlyNamed(a) && PlainlyNamed(b) && PlainlyNamed(c) && PlainlyNamed(d)
    ensures PlainlyNamed(a + b + c + d)
  {
    BothPlainlyNamed(a, b);
    BothPlainlyNamed(a + b, c);
    BothPlainlyNamed(a + b + c, d);
  }

  /** On a cover letter, only the branch is named. */
  lemma {:induction false} CoverNames(ctx: Context, title: string, description: string, lastCommit: string, count: nat,
      stamp: Stamp, name: string)
    requires WellFormedContext(ctx) && |name| > 3
    ensures FirstNamed(CoverEvent(ctx, title, description, lastCommit, count, stamp).tags, name) ==
      FirstNamed(BranchTags(ctx.branch), name)
  {
    var none := CommitInfo("", "", "", "", [], [], "", "");
    PartsPlainlyNamed(ctx, none, title);
    var a, b, c := CoordinateTags(ctx.repo, ctx.repo.maintainers), CoverTags(ctx, title), ThreadTags(ctx, None);
    var persons := PersonTags(ctx.repo.maintainers);
    hide PlainlyNamed, CoordinateTags, CoverTags, ThreadTags, BranchTags, PersonTags, FirstNamed, WellFormedContext;
    FourPlainlyNamed(a, b, c, ctx.mentions);
    PlainlyUnnamed(a + b + c + ctx.mentions, name);
    PlainlyUnnamed(persons, name);
    FoundBetween(a + b + c + ctx.mentions, BranchTags(ctx.branch), persons, name);
    CoverGrouped(a, b, c, ctx.mentions, BranchTags(ctx.branch), persons);
  }

  /** The first event of a series without cover letter names the branch as well. */
  lemma {:induction false} PatchNamesBranch(ctx: Context, commit: CommitInfo, stamp: Stamp)
    requires WellFormedContext(ctx)
    ensures FirstNamed(PatchEvent(ctx, commit, stamp, None, None).tags, "branch-name") ==
      FirstNamed(BranchTags(ctx.branch), "branch-name")
  {
    PartsPlainlyNamed(ctx, commit, "");
    CommitNamesNoBranch(commit);
    var a, b, c := CoordinateTags(ctx.repo, ctx.repo.maintainers), OpeningTags(ctx, commit), ThreadTags(ctx, None);
    var persons := PersonTags(ctx.repo.maintainers);
    var none := ParentTags(ctx, None);
    assert none == [] && |"branch-name"| > 3;
    hide PlainlyNamed, CoordinateTags, OpeningTags, ThreadTags, ParentTags, BranchTags, PersonTags, CommitTags;
    hide FirstNamed, WellFormedContext;
    FourPlainlyNamed(a, b, c, ctx.mentions);
    PlainlyUnnamed(a + b + c + ctx.mentions, "branch-name");
    PlainlyUnnamed(persons, "branch-name");
    FirstNamedConcat(persons, CommitTags(commit), "branch-name");
    FoundBetween(a + b + c + ctx.mentions, BranchTags(ctx.branch), persons + CommitTags(commit), "branch-name");
    PatchGrouped(a, b, c, ctx.mentions, BranchTags(ctx.branch), persons, CommitTags(commit));
  }

  lemma {:induction false} CommitNamesNoBranch(commit: CommitInfo)
    ensures FirstNamed(CommitTags(commit), "branch-name") == None
  {
    var tags := CommitTags(commit);
    forall i | 0 <= i < |tags|
      ensures tags[i][0] != "branch-name"
    {
      assert "branch-name"[0] == 'b' && tags[i][0][0] != 'b';
    }
    NotNamed(tags, "branch-name");
  }

  // ---------------------------------------------------------------- a cover letter read back

  lemma {:induction false} DecimalFree(n: nat)
    ensures Free(Decimal(n), ']')
  {
    if n >= 10 {
      DecimalFree(n / 10);
    }
  }

  lemma {:induction false} FirstClosing(before: string, text: string)
    requires Free(before, ']')
    ensures FirstOccurrence("] ", before + "] " + text, 0) == Some(|before|)
    ensures (before + "] " + text)[|before| + 2..] == text
  {
    var content, n := before + "] " + text, |before|;
    assert content[n..n + 2] == "] " && OccursAt("] ", content, n);
    forall i | 0 <= i < n
      ensures !OccursAt("] ", content, i)
    {
      assert content[i] == before[i] && before[i] in before;
      assert i + 2 <= |content| ==> content[i..i + 2][0] == content[i];
    }
  }

  lemma {:induction false} OpeningFree()
    ensures Free("From ", ']') && Free(MAIL_DATE, ']') && Free("Subject: [PATCH 0/", ']')
  {
    assert |MAIL_DATE| == 26;
  }

  /** The text of a cover letter starts past the number of its patches. */
  lemma {:induction false} OpeningFound(lastCommit: string, count: nat, text: string)
    requires IsHex(lastCommit)
    ensures var opening := CoverOpening(lastCommit, count);
      && |opening| > 2 && FirstOccurrence("] ", opening + text, 0) == Some(|opening| - 2)
      && (opening + text)[|opening|..] == text
  {
    DecimalFree(count);
    assert Free(lastCommit, ']');
    var number := Decimal(count);
    hide Decimal, IsHex, FirstOccurrence;
    var before := "From " + lastCommit + MAIL_DATE + "Subject: [PATCH 0/" + number;
    OpeningFree();
    assert CoverOpening(lastCommit, count) == before + "] ";
    FirstClosing(before, text);
  }

  /** Without a description tag, the message is cut from the content. */
  lemma {:induction false} MessageCut(e: Event, start: nat)
    requires FirstNamed(e.tags, "description") == None
    requires start >= 2 && FirstOccurrence("] ", e.content, 0) == Some(start - 2)
    ensures MessageOf(e) ==
      match FirstOccurrence(DIFF, e.content[start..], 0)
      case None => Ok(e.content[start..])
      case Some(j) => if j < start then Err(Panic) else Ok(e.content[start..j])
  {
    hide FirstOccurrence;
  }

  lemma {:induction false} CoverDescribesNothing(ctx: Context, title: string, description: string, lastCommit: string,
      count: nat, stamp: Stamp)
    requires WellFormedContext(ctx)
    ensures FirstNamed(CoverEvent(ctx, title, description, lastCommit, count, stamp).tags, "description") == None
  {
    CoverNames(ctx, title, description, lastCommit, count, stamp, "description");
    BranchTagsFacts(ctx.branch);
    assert "branch-name"[0] == 'b' && "description"[0] == 'd';
    hide BranchTags, CoverEvent;
    NotNamed(BranchTags(ctx.branch), "description");
  }

  lemma {:induction false} CoverContent(ctx: Context, title: string, description: string, lastCommit: string,
      count: nat, stamp: Stamp)
    ensures CoverEvent(ctx, title, description, lastCommit, count, stamp).content ==
      CoverOpening(lastCommit, count) + (title + "\n\n" + description)
  {
    hide CoverOpening;
  }

  /** What is read as the message of a cover letter. */
  lemma {:induction false} CoverMessage(ctx: Context, title: string, description: string, lastCommit: string,
      count: nat, stamp: Stamp)
    requires WellFormedContext(ctx) && IsHex(lastCommit)
    ensures var e, text := CoverEvent(ctx, title, description, lastCommit, count, stamp), title + "\n\n" + description;
      var start := |CoverOpening(lastCommit, count)|;
      && |e.content| == start + |text|
      && MessageOf(e) ==
           match FirstOccurrence(DIFF, text, 0)
           case None => Ok(text)
           case Some(j) => if j < start then Err(Panic) else Ok(e.content[start..j])
  {
    hide *;
    var text := title + "\n\n" + description;
    CoverDescribesNothing(ctx, title, description, lastCommit, count, stamp);
    CoverContent(ctx, title, description, lastCommit, count, stamp);
    OpeningFound(lastCommit, count, text);
    MessageCut(CoverEvent(ctx, title, description, lastCommit, count, stamp), |CoverOpening(lastCommit, count)|);
  }

  lemma {:induction false} TextRead(title: string, description: string)
    ensures var text := title + "\n\n" + description;
      FirstLine(text) == title && Trim(text[|FirstLine(text)|..]) == description <==>
        Free(title, '\n') && IsTrimmed(description)
  {
    var text := title + "\n\n" + description;
    Piece(text, '\n', 0);
    if Free(title, '\n') {
      assert text == title + "\n" + ("\n" + description);
      SplitFirst(title, '\n', "\n" + description);
      assert text[|title|..] == "\n\n" + description;
      BlankLineTrimmed(description);
      TrimmedIsKept(description);
    }
  }

  lemma {:induction false} CoverSaysRoot(ctx: Context, title: string, description: string, lastCommit: string,
      count: nat, stamp: Stamp)
    ensures IsPatchSetRoot(CoverEvent(ctx, title, description, lastCommit, count, stamp))
  {
    var tags := CoverEvent(ctx, title, description, lastCommit, count, stamp).tags;
    var n := |CoordinateTags(ctx.repo, ctx.repo.maintainers)| + 3;
    assert tags[n] == ["t", "root"];
    SaysAt(tags, "root", n);
  }

  /** Reading a cover letter panics if and only if the line that opens a diff stands in its text earlier than the text
      stands in the content. */
  lemma {:induction false} CoverLetterPanics(ctx: Context, title: string, description: string, lastCommit: string,
      count: nat, stamp: Stamp)
    requires WellFormedContext(ctx) && IsHex(lastCommit)
    ensures var r := LetterOf(CoverEvent(ctx, title, description, lastCommit, count, stamp));
      && (r.Err? ==> r == Err(Panic))
      && (r.Err? <==> exists j ::
            0 <= j < |CoverOpening(lastCommit, count)| && OccursAt("\ndiff --git", title + "\n\n" + description, j))
  {
    CoverSaysRoot(ctx, title, description, lastCommit, count, stamp);
    CoverMessage(ctx, title, description, lastCommit, count, stamp);
    hide MessageOf, CoverEvent, CoverOpening, FirstLine, Trim, IsPatchSetRoot;
  }

  /** Without such a line the first line is the title, and what follows, a title's further lines included, is the
      description without the space around it. */
  lemma {:induction false} CoverLetterRead(ctx: Context, title: string, description: string, lastCommit: string,
      count: nat, stamp: Stamp)
    requires WellFormedContext(ctx) && IsHex(lastCommit)
    requires forall i :: !OccursAt("\ndiff --git", title + "\n\n" + description, i)
    ensures var text := title + "\n\n" + description;
      var r := LetterOf(CoverEvent(ctx, title, description, lastCommit, count, stamp));
      && r.Ok? && r.value.title == Split(text, '\n')[0] && r.value.title <= text
      && r.value.description == Trim(text[|r.value.title|..])
  {
    CoverSaysRoot(ctx, title, description, lastCommit, count, stamp);
    CoverMessage(ctx, title, description, lastCommit, count, stamp);
    hide MessageOf, CoverEvent, CoverOpening, Trim, IsPatchSetRoot;
    assert FirstLine(title + "\n\n" + description) <= title + "\n\n" + description;
  }

  /** A cover letter is read back as it was written if and only if its title is one line, its description has no
      space around it, and neither holds the line that opens a diff. */
  lemma {:induction false} CoverLetterRoundTrip(ctx: Context, title: string, description: string, lastCommit: string,
      count: nat, stamp: Stamp)
    requires WellFormedContext(ctx) && IsHex(lastCommit)
    ensures var r := LetterOf(CoverEvent(ctx, title, description, lastCommit, count, stamp));
      r.Ok? && r.value.title == title && r.value.description == description <==>
        && Free(title, '\n') && IsTrimmed(description)
        && !exists i :: OccursAt("\ndiff --git", title + "\n\n" + description, i)
  {
    var e, text := CoverEvent(ctx, title, description, lastCommit, count, stamp), title + "\n\n" + description;
    CoverSaysRoot(ctx, title, description, lastCommit, count, stamp);
    CoverMessage(ctx, title, description, lastCommit, count, stamp);
    TextRead(title, description);
    var diff := FirstOccurrence(DIFF, text, 0);
    if diff.Some? && LetterOf(e).Ok? && LetterOf(e).value.title == title {
      var message := MessageOf(e).value;
      assert |message| + |DIFF| <= |text|;
      TrimmedIsKept(message[|title|..]);
    }
    hide MessageOf, CoverEvent, FirstLine, Trim;
  }

  /** The message of a patch in a series is its commit's. */
  lemma {:induction false} PatchLetter(ctx: Context, commit: CommitInfo, stamp: Stamp)
    requires WellFormedContext(ctx) && LetterOf(PatchEvent(ctx, commit, stamp, None, None)).Ok?
    ensures var letter := LetterOf(PatchEvent(ctx, commit, stamp, None, None)).value;
      && letter.title == Split(commit.message, '\n')[0] && letter.title <= commit.message
      && letter.description == Trim(commit.message[|letter.title|..])
  {
    PatchTagValues(ctx, commit, stamp, None, None);
    hide PatchEvent, FirstNamed, Trim, IsPatchSetRoot;
    assert FirstLine(commit.message) <= commit.message;
  }

  // ---------------------------------------------------------------- the branch of a proposal

  /** The name that a series says its branch has. */
  lemma {:induction false} BranchRead(branch: Option<string>)
    ensures FirstNamed(BranchTags(branch), "branch-name") ==
      if branch.None? || branch.value in ["main", "master", "origin/main", "origin/master"] then None
      else
        var name := if "pr/" <= branch.value then branch.value[3..] else branch.value;
        Some(["branch-name", if |name| > 60 then name[..60] else name])
  {}

  /** What the proposal's branch is called: after the branch it was made on, and after its title if that was, or is
      called, a main branch. */
  function ShownName(branch: Option<string>, title: string): string {
    if branch.None? || branch.value in ["main", "master", "origin/main", "origin/master"] then SafeName(title)
    else
      var name := if "pr/" <= branch.value then branch.value[3..] else branch.value;
      if name in ["main", "master"] then SafeName(title) else SafeName(name)
  }

  /** Cutting a name twice is cutting it once. */
  lemma {:induction false} SafeNameOfCut(name: string)
    ensures SafeName(if |name| > 60 then name[..60] else name) == SafeName(name)
  {}

  lemma {:induction false} FirstNamesBranch(ctx: Context, cover: Option<(string, string)>, commits: seq<CommitInfo>,
      stamps: seq<Stamp>, events: seq<Event>)
    requires IsSeries(ctx, cover, commits, stamps, events) && WellFormedContext(ctx) && events != []
    ensures events[0].pubkey == ctx.signer && events[0].id == stamps[0].id
    ensures FirstNamed(events[0].tags, "branch-name") == FirstNamed(BranchTags(ctx.branch), "branch-name")
  {
    hide WellFormedContext, FirstNamed, BranchTags, HeaderTags, CommitTags, CoverTags, CoverOpening;
    if cover.Some? {
      CoverNames(ctx, cover.value.0, cover.value.1, commits[|commits| - 1].id, |commits|, stamps[0], "branch-name");
    } else {
      SeriesPatch(ctx, cover, commits, stamps, events, 0);
      PatchNamesBranch(ctx, commits[0], stamps[0]);
    }
  }

  lemma {:induction false} LetterNamed(ctx: Context, e: Event)
    requires LetterOf(e).Ok?
    requires FirstNamed(e.tags, "branch-name") == FirstNamed(BranchTags(ctx.branch), "branch-name")
    ensures LetterOf(e).value.branchName == ShownName(ctx.branch, LetterOf(e).value.title)
    ensures LetterOf(e).value.eventId == e.id
  {
    BranchRead(ctx.branch);
    hide FirstNamed, BranchTags, MessageOf, FirstLine, Trim, IsPatchSetRoot, SafeName;
    if ctx.branch.Some? {
      SafeNameOfCut(if "pr/" <= ctx.branch.value then ctx.branch.value[3..] else ctx.branch.value);
    }
  }

  lemma {:induction false} BranchPrefixRemoved(name: string)
    requires !Contains(name, "refs/heads/")
    ensures Remove("refs/heads/pr/" + name, "refs/heads/") == "pr/" + name
  {
    var s := "pr/" + name;
    assert s[1..] == "r/" + name && s[1..][1..] == "/" + name && s[1..][1..][1..] == name;
    StartsNot(s, "refs/heads/", 0);
    StartsNot(s[1..], "refs/heads/", 1);
    StartsNot(s[1..][1..], "refs/heads/", 0);
    assert !Contains(s[1..][1..], "refs/heads/");
    assert !Contains(s[1..], "refs/heads/");
    assert !Contains(s, "refs/heads/");
    RemoveNothing(s, "refs/heads/");
    assert "refs/heads/pr/" + name == "refs/heads/" + s && ("refs/heads/" + s)[11..] == s;
  }

  lemma {:induction false} StartsNot(s: string, prefix: string, i: nat)
    requires i < |s| && i < |prefix| && s[i] != prefix[i]
    ensures !StartsWith(s, prefix)
  {}

  /** The branch names under which a proposal is found: for its author by its name, and for anybody by its name with the
      start of its id. */
  lemma {:induction false} FoundByBranch(ctx: Context, cover: Option<(string, string)>, commits: seq<CommitInfo>,
      stamps: seq<Stamp>, events: seq<Event>, name: string, user: Option<PublicKey>)
    requires IsSeries(ctx, cover, commits, stamps, events) && WellFormedContext(ctx) && events != []
    requires LetterOf(events[0]).Ok? && !IsRevisionRoot(events[0]) && !Contains(name, "refs/heads/")
    ensures var shown := ShownName(ctx.branch, LetterOf(events[0]).value.title);
      IsProposalOfBranch(events[0], "refs/heads/pr/" + name, user) <==>
        || (user == Some(ctx.signer) && name == shown)
        || name == shown + "(" + Shorthand(stamps[0].id) + ")"
  {
    FirstNamesBranch(ctx, cover, commits, stamps, events);
    LetterNamed(ctx, events[0]);
    BranchPrefixRemoved(name);
    var e := events[0];
    hide *;
    ProposalOfBranch(e, "refs/heads/pr/" + name, user, name);
  }

  lemma {:induction false} ProposalOfBranch(e: Event, branch: string, user: Option<PublicKey>, name: string)
    requires LetterOf(e).Ok? && !IsRevisionRoot(e) && Remove(branch, "refs/heads/") == "pr/" + name
    ensures var letter := LetterOf(e).value;
      IsProposalOfBranch(e, branch, user) <==>
        || (user == Some(e.pubkey) && name == letter.branchName)
        || name == letter.branchName + "(" + Shorthand(letter.eventId) + ")"
  {
    var letter := LetterOf(e).value;
    hide LetterOf, Remove, IsRevisionRoot, Shorthand;
    SamePrefix(name, letter.branchName);
    SamePrefix(name, letter.branchName + "(" + Shorthand(letter.eventId) + ")");
    assert "pr/" + letter.branchName + "(" + Shorthand(letter.eventId) + ")" ==
      "pr/" + (letter.branchName + "(" + Shorthand(letter.eventId) + ")");
  }

  lemma {:induction false} SamePrefix(a: string, b: string)
    ensures "pr/" + a == "pr/" + b <==> a == b
  {
    assert ("pr/" + a)[3..] == a && ("pr/" + b)[3..] == b;
  }

  /** Letters, digits, slashes and hyphens. */
  predicate IsSafe(s: string) {
    forall c | c in s :: 'a' <= c <= 'z' || 'A' <= c <= 'Z' || '0' <= c <= '9' || c == '/' || c == '-'
  }

  lemma {:induction false} SafeIsKept(s: string)
    ensures |SafeName(s)| == if |s| > 60 then 60 else |s|
    ensures SafeName(s) <= s <==> IsSafe(if |s| > 60 then s[..60] else s)
  {
    var cut := if |s| > 60 then s[..60] else s;
    forall i | 0 <= i < |cut|
      ensures SafeName(s)[i] == SafeChar(cut[i]) && cut[i] in cut
    {}
    if SafeName(s) <= s {
      assert SafeName(s) == cut;
    }
  }

  /** Who makes a proposal on a branch finds it again under the branch's name if and only if the name is safe and no
      longer than 60 characters, or goes on from there with the start of the proposal's id in brackets. */
  lemma {:induction false} OwnBranchFound(ctx: Context, cover: Option<(string, string)>, commits: seq<CommitInfo>,
      stamps: seq<Stamp>, events: seq<Event>, name: string)
    requires IsSeries(ctx, cover, commits, stamps, events) && WellFormedContext(ctx) && events != []
    requires LetterOf(events[0]).Ok? && !IsRevisionRoot(events[0]) && !Contains(name, "refs/heads/")
    requires ctx.branch == Some("pr/" + name) && name !in ["main", "master"]
    ensures IsProposalOfBranch(events[0], "refs/heads/pr/" + name, Some(ctx.signer)) <==>
      if |name| <= 60 then IsSafe(name)
      else IsSafe(name[..60]) && name[60..] == "(" + Shorthand(stamps[0].id) + ")"
  {
    var id := Shorthand(stamps[0].id);
    hide *;
    FoundByBranch(ctx, cover, commits, stamps, events, name, Some(ctx.signer));
    OwnName(name, LetterOf(events[0]).value.title);
    NameMatches(name, id);
  }

  lemma {:induction false} NameMatches(name: string, id: string)
    ensures name == SafeName(name) || name == SafeName(name) + "(" + id + ")" <==>
      if |name| <= 60 then IsSafe(name) else IsSafe(name[..60]) && name[60..] == "(" + id + ")"
  {
    SafeIsKept(name);
    hide *;
    IdAppended(name, SafeName(name), "(" + id + ")");
    assert SafeName(name) + "(" + id + ")" == SafeName(name) + ("(" + id + ")");
  }

  lemma {:induction false} OwnName(name: string, title: string)
    requires name !in ["main", "master"]
    ensures ShownName(Some("pr/" + name), title) == SafeName(name)
  {
    var branch := "pr/" + name;
    assert branch[0] == 'p' && branch[3..] == name;
  }

  /** A name that goes on after its first characters. */
  lemma {:induction false} IdAppended(name: string, safe: string, rest: string)
    requires |safe| == (if |name| > 60 then 60 else |name|) && rest != ""
    ensures name == safe + rest <==> |name| > 60 && safe <= name && name[60..] == rest
    ensures name == safe <==> |name| <= 60 && safe <= name
  {
    if |name| > 60 && safe <= name {
      assert name == name[..60] + name[60..] && name[..60] == safe;
    }
    if name == safe + rest {
      assert |name| > |safe| && name[..60] == safe && name[60..] == rest;
    }
  }
}
