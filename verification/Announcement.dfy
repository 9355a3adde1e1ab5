/** Repository announcements: a repository as the tags of an event, and back. */
module Announcement {
  import opened Wrappers
  import opened Text
  import opened Codecs
  import opened Events
  import opened Reports
  import Discovery
  import Fetch

  datatype RepoRef = RepoRef(identifier: string, name: string, description: string, rootCommit: string,
                             gitServer: seq<string>, web: seq<string>, relays: seq<RelayUrl>,
                             maintainers: seq<PublicKey>)

  datatype AnnouncementError = WrongKind | BadKey | Panic

  // ---------------------------------------------------------------- printing

  /** `to_event`, as far as its tags go. An empty identifier is replaced by the start of the root commit,
      which panics on a shorter one. */
  function ToTags(keys: Codec<PublicKey>, relays: Codec<RelayUrl>, r: RepoRef): Result<seq<Tag>, AnnouncementError> {
    if r.identifier == "" && |r.rootCommit| < 7 then Err(Panic)
    else Ok([
      ["d", if r.identifier == "" then r.rootCommit[..7] else r.identifier],
      ["r", r.rootCommit, "euc"],
      ["name", r.name],
      ["description", r.description],
      ["clone"] + r.gitServer,
      ["web"] + r.web,
      ["relays"] + ShowAll(relays, r.relays),
      ["maintainers"] + ShowAll(keys, r.maintainers),
      ["alt", "git repository: " + r.name]])
  }

  // ---------------------------------------------------------------- what the tags say

  predicate Named(tag: Tag, name: string) {
    tag != [] && tag[0] == name
  }

  /** The value of a tag with at least one. */
  function ValueIn(tag: Tag, name: string): Option<string> {
    if Named(tag, name) && |tag| > 1 then Some(tag[1]) else None
  }

  /** All values of a tag, possibly none. */
  function ValuesIn(tag: Tag, name: string): Option<seq<string>> {
    if Named(tag, name) then Some(tag[1..]) else None
  }

  predicate IsCommitId(s: string) {
    |s| == 40 && IsOid(s)
  }

  function RootCommitIn(tag: Tag): Option<string> {
    if Named(tag, "r") && (|tag| == 2 || (|tag| == 3 && tag[2] == "euc")) && IsCommitId(tag[1]) then Some(tag[1])
      else None
  }

  function RelaysIn(relays: Codec<RelayUrl>, tag: Tag): seq<RelayUrl> {
    if Named(tag, "relays") then ParseAll(relays, tag[1..]) else []
  }

  /** The maintainers of one tag; the signer comes first when the tag leaves it out. */
  function MaintainersIn(keys: Codec<PublicKey>, signer: PublicKey, tag: Tag): seq<PublicKey> {
    if Named(tag, "maintainers") then
      (if keys.show(signer) in tag[1..] then [] else [signer]) + ParseAll(keys, tag[1..])
    else []
  }

  predicate Unreadable(keys: Codec<PublicKey>, tag: Tag) {
    Named(tag, "maintainers") && exists k :: k in tag[1..] && keys.parse(k).None?
  }

  /** The last thing that `read` makes of a tag. */
  function Last<T>(tags: seq<Tag>, read: Tag -> Option<T>, otherwise: T): T {
    if tags == [] then otherwise
    else if read(tags[|tags| - 1]).Some? then read(tags[|tags| - 1]).value
    else Last(tags[..|tags| - 1], read, otherwise)
  }

  /** Everything that `read` makes of the tags, in order. */
  function All<T>(tags: seq<Tag>, read: Tag -> seq<T>): seq<T> {
    if tags == [] then [] else All(tags[..|tags| - 1], read) + read(tags[|tags| - 1])
  }

  function Said(keys: Codec<PublicKey>, relays: Codec<RelayUrl>, signer: PublicKey, tags: seq<Tag>): RepoRef {
    RepoRef(
      Last(tags, tag => ValueIn(tag, "d"), ""),
      Last(tags, tag => ValueIn(tag, "name"), ""),
      Last(tags, tag => ValueIn(tag, "description"), ""),
      Last(tags, RootCommitIn, ""),
      Last(tags, tag => ValuesIn(tag, "clone"), []),
      Last(tags, tag => ValuesIn(tag, "web"), []),
      All(tags, tag => RelaysIn(relays, tag)),
      All(tags, tag => MaintainersIn(keys, signer, tag)))
  }

  /** The signer maintains a repository for which nobody is named. */
  function WithSigner(r: RepoRef, signer: PublicKey): RepoRef {
    if r.maintainers == [] then r.(maintainers := [signer]) else r
  }

  function Parsed(keys: Codec<PublicKey>, relays: Codec<RelayUrl>, e: Event): Result<RepoRef, AnnouncementError> {
    if e.kind != GitRepoAnnouncement then Err(WrongKind)
    else if exists tag :: tag in e.tags && Unreadable(keys, tag) then Err(BadKey)
    else if TagValue(e.tags, "d").None? then Err(Panic)
    else Ok(WithSigner(Said(keys, relays, e.pubkey, e.tags), e.pubkey))
  }

  // ---------------------------------------------------------------- parsing

  method ParseRelays(relays: Codec<RelayUrl>, texts: seq<string>) returns (r: seq<RelayUrl>)
    ensures r == ParseAll(relays, texts)
  {
    r := [];
    for i := 0 to |texts|
      invariant r + ParseAll(relays, texts[i..]) == ParseAll(relays, texts)
    {
      var relay := relays.parse(texts[i]);
      if relay.Some? {
        r := r + [relay.value];
      }
    }
  }

  method ParseKeys(keys: Codec<PublicKey>, texts: seq<string>) returns (r: Result<seq<PublicKey>, AnnouncementError>)
    ensures r == if exists k :: k in texts && keys.parse(k).None? then Err(BadKey) else Ok(ParseAll(keys, texts))
  {
    var parsed: seq<PublicKey> := [];
    for i := 0 to |texts|
      invariant forall k | k in texts[..i] :: keys.parse(k).Some?
      invariant parsed + ParseAll(keys, texts[i..]) == ParseAll(keys, texts)
    {
      var key := keys.parse(texts[i]);
      if key.None? {
        return Err(BadKey);
      }
      parsed := parsed + [key.value];
    }
    assert texts[..|texts|] == texts && parsed == ParseAll(keys, texts);
    return Ok(parsed);
  }

  /** One turn of the loop over the tags. */
  method ReadTag(keys: Codec<PublicKey>, relays: Codec<RelayUrl>, signer: PublicKey, tag: Tag, r: RepoRef)
    returns (r': Result<RepoRef, AnnouncementError>)
    ensures r'.Err? <==> Unreadable(keys, tag)
    ensures r'.Err? ==> r' == Err(BadKey)
    ensures r'.Ok? ==> r'.value == Reading(keys, relays, signer, tag, r)
  {
    if Named(tag, "d") && |tag| > 1 {
      return Ok(r.(identifier := tag[1]));
    } else if Named(tag, "name") && |tag| > 1 {
      return Ok(r.(name := tag[1]));
    } else if Named(tag, "description") && |tag| > 1 {
      return Ok(r.(description := tag[1]));
    } else if Named(tag, "clone") {
      return Ok(r.(gitServer := tag[1..]));
    } else if Named(tag, "web") {
      return Ok(r.(web := tag[1..]));
    } else if Named(tag, "r") && |tag| == 2 && IsCommitId(tag[1]) {
      return Ok(r.(rootCommit := tag[1]));
    } else if Named(tag, "r") && |tag| == 3 && tag[2] == "euc" && IsCommitId(tag[1]) {
      return Ok(r.(rootCommit := tag[1]));
    } else if Named(tag, "relays") {
      var parsed := ParseRelays(relays, tag[1..]);
      return Ok(r.(relays := r.relays + parsed));
    } else if Named(tag, "maintainers") {
      var first := if keys.show(signer) in tag[1..] then [] else [signer];
      var parsed :- ParseKeys(keys, tag[1..]);
      return Ok(r.(maintainers := r.maintainers + (first + parsed)));
    }
    return Ok(r);
  }

  function Otherwise<T>(read: Option<T>, otherwise: T): T {
    if read.Some? then read.value else otherwise
  }

  /** What reading one more tag makes of the repository. */
  function Reading(keys: Codec<PublicKey>, relays: Codec<RelayUrl>, signer: PublicKey, tag: Tag, r: RepoRef): RepoRef {
    RepoRef(
      Otherwise(ValueIn(tag, "d"), r.identifier), Otherwise(ValueIn(tag, "name"), r.name),
      Otherwise(ValueIn(tag, "description"), r.description), Otherwise(RootCommitIn(tag), r.rootCommit),
      Otherwise(ValuesIn(tag, "clone"), r.gitServer), Otherwise(ValuesIn(tag, "web"), r.web),
      r.relays + RelaysIn(relays, tag), r.maintainers + MaintainersIn(keys, signer, tag))
  }

  lemma {:induction false} SaidSnoc(keys: Codec<PublicKey>, relays: Codec<RelayUrl>, signer: PublicKey, tags: seq<Tag>,
      tag: Tag)
    ensures Said(keys, relays, signer, tags + [tag]) ==
      Reading(keys, relays, signer, tag, Said(keys, relays, signer, tags))
  {
    assert (tags + [tag])[..|tags|] == tags;
  }

  ghost predicate AllReadable(keys: Codec<PublicKey>, tags: seq<Tag>) {
    forall tag | tag in tags :: !Unreadable(keys, tag)
  }

  lemma {:induction false} ReadableSnoc(keys: Codec<PublicKey>, tags: seq<Tag>, tag: Tag)
    ensures AllReadable(keys, tags + [tag]) <==> AllReadable(keys, tags) && !Unreadable(keys, tag)
  {
    if AllReadable(keys, tags + [tag]) {
      forall x | x in tags
        ensures !Unreadable(keys, x)
      {
        assert x in tags + [tag];
      }
      assert tag in tags + [tag];
    }
  }

  lemma {:induction false} SaidNothing(keys: Codec<PublicKey>, relays: Codec<RelayUrl>, signer: PublicKey)
    ensures Said(keys, relays, signer, []) == RepoRef("", "", "", "", [], [], [], []) && AllReadable(keys, [])
  {}

  lemma {:induction false} UnreadableAmong(keys: Codec<PublicKey>, tags: seq<Tag>, i: nat)
    requires i < |tags| && Unreadable(keys, tags[i])
    ensures !AllReadable(keys, tags)
  {
    assert tags[i] in tags;
  }

  /** The loop over the tags. */
  method ReadTags(keys: Codec<PublicKey>, relays: Codec<RelayUrl>, signer: PublicKey, tags: seq<Tag>)
    returns (r: Result<RepoRef, AnnouncementError>)
    ensures r.Ok? <==> AllReadable(keys, tags)
    ensures r == if r.Ok? then Ok(Said(keys, relays, signer, tags)) else Err(BadKey)
  {
    hide *;
    var repo := RepoRef("", "", "", "", [], [], [], []);
    SaidNothing(keys, relays, signer);
    for i := 0 to |tags|
      invariant AllReadable(keys, tags[..i]) && repo == Said(keys, relays, signer, tags[..i])
    {
      assert tags[..i + 1] == tags[..i] + [tags[i]];
      SaidSnoc(keys, relays, signer, tags[..i], tags[i]);
      ReadableSnoc(keys, tags[..i], tags[i]);
      var read := ReadTag(keys, relays, signer, tags[i], repo);
      if read.Err? {
        UnreadableAmong(keys, tags, i);
        return Err(read.error);
      }
      repo := read.value;
    }
    assert tags[..|tags|] == tags;
    return Ok(repo);
  }

  /** `RepoRef::try_from` */
  method TryFrom(keys: Codec<PublicKey>, relays: Codec<RelayUrl>, e: Event)
    returns (r: Result<RepoRef, AnnouncementError>)
    ensures r == Parsed(keys, relays, e)
  {
    if e.kind != GitRepoAnnouncement {
      return Err(WrongKind);
    }
    var repo :- ReadTags(keys, relays, e.pubkey, e.tags);
    if repo.maintainers == [] {
      repo := repo.(maintainers := [e.pubkey]);
    }
    // the event is filed under its first identifier
    if TagValue(e.tags, "d").None? {
      return Err(Panic);
    }
    return Ok(repo);
  }

  // ---------------------------------------------------------------- round trip

  lemma {:induction false} LastAt<T>(tags: seq<Tag>, read: Tag -> Option<T>, otherwise: T, i: nat)
    requires i < |tags| && read(tags[i]).Some? && forall j | i < j < |tags| :: read(tags[j]).None?
    ensures Last(tags, read, otherwise) == read(tags[i]).value
  {
    if i < |tags| - 1 {
      LastAt(tags[..|tags| - 1], read, otherwise, i);
    }
  }

  lemma {:induction false} LastOfNone<T>(tags: seq<Tag>, read: Tag -> Option<T>, otherwise: T)
    requires forall j | 0 <= j < |tags| :: read(tags[j]).None?
    ensures Last(tags, read, otherwise) == otherwise
  {
    if tags != [] {
      LastOfNone(tags[..|tags| - 1], read, otherwise);
    }
  }

  lemma {:induction false} AllAt<T>(tags: seq<Tag>, read: Tag -> seq<T>, i: nat)
    requires i < |tags| && forall j | 0 <= j < |tags| && j != i :: read(tags[j]) == []
    ensures All(tags, read) == read(tags[i])
  {
    var front := tags[..|tags| - 1];
    if i < |tags| - 1 {
      AllAt(front, read, i);
    } else {
      AllOfNone(front, read);
    }
  }

  lemma {:induction false} AllOfNone<T>(tags: seq<Tag>, read: Tag -> seq<T>)
    requires forall j | 0 <= j < |tags| :: read(tags[j]) == []
    ensures All(tags, read) == []
  {
    if tags != [] {
      AllOfNone(tags[..|tags| - 1], read);
    }
  }

  /** The names of the tags printed, one each. */
  const NAMES := ["d", "r", "name", "description", "clone", "web", "relays", "maintainers", "alt"]

  lemma {:induction false} NamesOf(keys: Codec<PublicKey>, relays: Codec<RelayUrl>, r: RepoRef, name: string, k: nat)
    requires ToTags(keys, relays, r).Ok? && k < 9 && NAMES[k] == name
    ensures var tags := ToTags(keys, relays, r).value;
      |tags| == 9 && Named(tags[k], name) && forall j | 0 <= j < 9 && j != k :: !Named(tags[j], name)
  {
    var tags := ToTags(keys, relays, r).value;
    forall j | 0 <= j < 9
      ensures tags[j] != [] && tags[j][0] == NAMES[j]
    {}
    forall j | 0 <= j < 9 && j != k
      ensures NAMES[j] != NAMES[k]
    {
      DistinctNames(j, k);
    }
  }

  lemma {:induction false} DistinctNames(j: nat, k: nat)
    requires j < 9 && k < 9 && j != k
    ensures NAMES[j] != NAMES[k]
  {
    var lengths := [1, 1, 4, 11, 5, 3, 6, 11, 3];
    assert forall i | 0 <= i < 9 :: |NAMES[i]| == lengths[i];
    assert NAMES[0][0] == 'd' && NAMES[1][0] == 'r' && NAMES[3][0] == 'd' && NAMES[7][0] == 'm' && NAMES[5][0] == 'w' &&
      NAMES[8][0] == 'a';
  }

  /** The texts of a printed announcement are read back, its lists in order; the identifier is the printed one. */
  lemma {:induction false} TextsRestored(keys: Codec<PublicKey>, relays: Codec<RelayUrl>, r: RepoRef)
    requires ToTags(keys, relays, r).Ok?
    ensures var tags := ToTags(keys, relays, r).value;
      && Last(tags, tag => ValueIn(tag, "d"), "") == tags[0][1]
      && Last(tags, tag => ValueIn(tag, "name"), "") == r.name
      && Last(tags, tag => ValueIn(tag, "description"), "") == r.description
      && Last(tags, tag => ValuesIn(tag, "clone"), []) == r.gitServer
      && Last(tags, tag => ValuesIn(tag, "web"), []) == r.web
  {
    var tags := ToTags(keys, relays, r).value;
    NamesOf(keys, relays, r, "d", 0);
    LastAt(tags, tag => ValueIn(tag, "d"), "", 0);
    NamesOf(keys, relays, r, "name", 2);
    LastAt(tags, tag => ValueIn(tag, "name"), "", 2);
    NamesOf(keys, relays, r, "description", 3);
    LastAt(tags, tag => ValueIn(tag, "description"), "", 3);
    NamesOf(keys, relays, r, "clone", 4);
    LastAt(tags, tag => ValuesIn(tag, "clone"), [], 4);
    NamesOf(keys, relays, r, "web", 5);
    LastAt(tags, tag => ValuesIn(tag, "web"), [], 5);
    assert tags[4][1..] == r.gitServer && tags[5][1..] == r.web;
  }

  lemma {:induction false} RootRestored(keys: Codec<PublicKey>, relays: Codec<RelayUrl>, r: RepoRef)
    requires ToTags(keys, relays, r).Ok?
    ensures Last(ToTags(keys, relays, r).value, RootCommitIn, "") == if IsCommitId(r.rootCommit) then r.rootCommit
      else ""
  {
    var tags := ToTags(keys, relays, r).value;
    NamesOf(keys, relays, r, "r", 1);
    if IsCommitId(r.rootCommit) {
      LastAt(tags, RootCommitIn, "", 1);
    } else {
      LastOfNone(tags, RootCommitIn, "");
    }
  }

  lemma {:induction false} RelaysRestored(keys: Codec<PublicKey>, relays: Codec<RelayUrl>, r: RepoRef)
    requires ToTags(keys, relays, r).Ok? && relays.Valid()
    ensures All(ToTags(keys, relays, r).value, tag => RelaysIn(relays, tag)) == r.relays
  {
    var tags := ToTags(keys, relays, r).value;
    NamesOf(keys, relays, r, "relays", 6);
    AllAt(tags, tag => RelaysIn(relays, tag), 6);
    assert tags[6][1..] == ShowAll(relays, r.relays);
    ParseAllShown(relays, r.relays);
  }

  lemma {:induction false} MaintainersRestored(keys: Codec<PublicKey>, relays: Codec<RelayUrl>, r: RepoRef,
      signer: PublicKey)
    requires ToTags(keys, relays, r).Ok? && keys.Valid()
    ensures var tags := ToTags(keys, relays, r).value;
      && (forall tag | tag in tags :: !Unreadable(keys, tag))
      && All(tags, tag => MaintainersIn(keys, signer, tag)) ==
        (if signer in r.maintainers then [] else [signer]) + r.maintainers
  {
    var tags := ToTags(keys, relays, r).value;
    NamesOf(keys, relays, r, "maintainers", 7);
    var read := tag => MaintainersIn(keys, signer, tag);
    AllAt(tags, read, 7);
    assert tags[7][1..] == ShowAll(keys, r.maintainers);
    ParseAllShown(keys, r.maintainers);
    ShownIn(keys, r.maintainers, signer);
    forall tag | tag in tags
      ensures !Unreadable(keys, tag)
    {
      if Named(tag, "maintainers") {
        assert tag == tags[7];
        forall k | k in ShowAll(keys, r.maintainers)
          ensures keys.parse(k).Some?
        {
          var i :| 0 <= i < |r.maintainers| && ShowAll(keys, r.maintainers)[i] == k;
        }
      }
    }
  }

  /** What parsing makes of a printed announcement, in every case. */
  lemma {:induction false} PrintedIsParsed(keys: Codec<PublicKey>, relays: Codec<RelayUrl>, r: RepoRef, e: Event)
    requires keys.Valid() && relays.Valid()
    requires e.kind == GitRepoAnnouncement && ToTags(keys, relays, r) == Ok(e.tags)
    ensures Parsed(keys, relays, e) == Ok(r.(
      identifier := if r.identifier == "" then r.rootCommit[..7] else r.identifier,
      rootCommit := if IsCommitId(r.rootCommit) then r.rootCommit else "",
      maintainers := (if e.pubkey in r.maintainers then [] else [e.pubkey]) + r.maintainers))
  {
    TextsRestored(keys, relays, r);
    RootRestored(keys, relays, r);
    RelaysRestored(keys, relays, r);
    MaintainersRestored(keys, relays, r, e.pubkey);
  }

  /** Printing and parsing restores the repository if and only if it has an identifier, its root commit is a
      full commit id or missing, and the signer is one of its maintainers. */
  lemma {:induction false} AnnouncementRoundTrip(keys: Codec<PublicKey>, relays: Codec<RelayUrl>, r: RepoRef, e: Event)
    requires keys.Valid() && relays.Valid()
    requires e.kind == GitRepoAnnouncement && ToTags(keys, relays, r) == Ok(e.tags)
    ensures Parsed(keys, relays, e) == Ok(r) <==>
      r.identifier != "" && (r.rootCommit == "" || IsCommitId(r.rootCommit)) && e.pubkey in r.maintainers
  {
    PrintedIsParsed(keys, relays, r, e);
    if e.pubkey !in r.maintainers {
      assert |[e.pubkey] + r.maintainers| != |r.maintainers|;
    } else {
      assert [] + r.maintainers == r.maintainers;
    }
  }

  // ---------------------------------------------------------------- what an announcement says

  /** Each part of a parsed announcement is what the last tag of its name holds. */
  lemma {:induction false} PartsRead(keys: Codec<PublicKey>, relays: Codec<RelayUrl>, e: Event, i: nat)
    requires Parsed(keys, relays, e).Ok? && i < |e.tags| && e.tags[i] != []
    requires forall j | i < j < |e.tags| :: e.tags[j] == [] || e.tags[j][0] != e.tags[i][0]
    ensures var r, tag := Parsed(keys, relays, e).value, e.tags[i];
      && (tag[0] == "d" && |tag| > 1 ==> r.identifier == tag[1])
      && (tag[0] == "name" && |tag| > 1 ==> r.name == tag[1])
      && (tag[0] == "description" && |tag| > 1 ==> r.description == tag[1])
      && (tag[0] == "clone" ==> r.gitServer == tag[1..])
      && (tag[0] == "web" ==> r.web == tag[1..])
      && (tag[0] == "r" && |tag| > 1 && |tag[1]| == 40 && IsHex(tag[1]) && tag[2..] in [[], ["euc"]] ==>
            r.rootCommit == tag[1])
  {
    hide Unreadable;
    var tags, tag := e.tags, e.tags[i];
    if tag[0] == "d" && |tag| > 1 {
      LastAt(tags, tag => ValueIn(tag, "d"), "", i);
    } else if tag[0] == "name" && |tag| > 1 {
      LastAt(tags, tag => ValueIn(tag, "name"), "", i);
    } else if tag[0] == "description" && |tag| > 1 {
      LastAt(tags, tag => ValueIn(tag, "description"), "", i);
    } else if tag[0] == "clone" {
      LastAt(tags, tag => ValuesIn(tag, "clone"), [], i);
    } else if tag[0] == "web" {
      LastAt(tags, tag => ValuesIn(tag, "web"), [], i);
    } else if tag[0] == "r" && |tag| > 1 && |tag[1]| == 40 && IsHex(tag[1]) && tag[2..] in [[], ["euc"]] {
      RootTagRead(tag);
      LastAt(tags, RootCommitIn, "", i);
    }
  }

  /** And each part that is not empty is what some tag of its name holds; the root commit, a tag that has nothing else or
      the marker. */
  lemma {:induction false} PartsHaveTags(keys: Codec<PublicKey>, relays: Codec<RelayUrl>, e: Event)
    requires Parsed(keys, relays, e).Ok?
    ensures var r := Parsed(keys, relays, e).value;
      && (r.identifier != "" ==> Tagged(e.tags, "d", r.identifier))
      && (r.name != "" ==> Tagged(e.tags, "name", r.name))
      && (r.description != "" ==> Tagged(e.tags, "description", r.description))
      && (r.gitServer != [] ==> ["clone"] + r.gitServer in e.tags) && (r.web != [] ==> ["web"] + r.web in e.tags)
      && (r.rootCommit != "" ==>
            && |r.rootCommit| == 40 && IsHex(r.rootCommit)
            && (["r", r.rootCommit] in e.tags || ["r", r.rootCommit, "euc"] in e.tags))
  {
    var tags := e.tags;
    TextHasTag(tags, "d", tag => ValueIn(tag, "d"));
    TextHasTag(tags, "name", tag => ValueIn(tag, "name"));
    TextHasTag(tags, "description", tag => ValueIn(tag, "description"));
    ListHasTag(tags, "clone", tag => ValuesIn(tag, "clone"));
    ListHasTag(tags, "web", tag => ValuesIn(tag, "web"));
    RootHasTag(tags);
    hide Unreadable, Tagged, Last, All, IsHex;
  }

  lemma {:induction false} TextHasTag(tags: seq<Tag>, name: string, read: Tag -> Option<string>)
    requires forall tag :: read(tag) == ValueIn(tag, name)
    ensures Last(tags, read, "") != "" ==> Tagged(tags, name, Last(tags, read, ""))
  {
    if Last(tags, read, "") != "" {
      var i := LastFrom(tags, read, "");
      TaggedAt(tags, name, Last(tags, read, ""), i);
    }
  }

  lemma {:induction false} ListHasTag(tags: seq<Tag>, name: string, read: Tag -> Option<seq<string>>)
    requires forall tag :: read(tag) == ValuesIn(tag, name)
    ensures Last(tags, read, []) != [] ==> [name] + Last(tags, read, []) in tags
  {
    if Last(tags, read, []) != [] {
      var i := LastFrom(tags, read, []);
      assert tags[i] == [name] + Last(tags, read, []);
    }
  }

  lemma {:induction false} RootHasTag(tags: seq<Tag>)
    ensures var root := Last(tags, RootCommitIn, "");
      root != "" ==> |root| == 40 && IsHex(root) && (["r", root] in tags || ["r", root, "euc"] in tags)
  {
    var root := Last(tags, RootCommitIn, "");
    if root != "" {
      var i := LastFrom(tags, RootCommitIn, "");
      assert tags[i] == if |tags[i]| == 2 then ["r", root] else ["r", root, "euc"];
    }
  }

  lemma {:induction false} LastFrom<T>(tags: seq<Tag>, read: Tag -> Option<T>, otherwise: T) returns (i: nat)
    requires Last(tags, read, otherwise) != otherwise
    ensures i < |tags| && read(tags[i]) == Some(Last(tags, read, otherwise))
  {
    i := |tags| - 1;
    if read(tags[i]).None? {
      i := LastFrom(tags[..i], read, otherwise);
    }
  }

  lemma {:induction false} RootTagRead(tag: Tag)
    requires |tag| > 1 && tag[0] == "r" && |tag[1]| == 40 && IsHex(tag[1]) && tag[2..] in [[], ["euc"]]
    ensures RootCommitIn(tag) == Some(tag[1])
  {
    assert |tag| == 2 + |tag[2..]|;
    assert |tag| == 3 ==> tag[2] == tag[2..][0];
  }

  /** Every readable relay and every maintainer that some tag lists is one, and so is the signer. */
  lemma {:induction false} MembersRead(keys: Codec<PublicKey>, relays: Codec<RelayUrl>, e: Event, i: nat, j: nat)
    requires keys.Valid() && Parsed(keys, relays, e).Ok? && i < |e.tags| && 0 < j < |e.tags[i]|
    ensures var r, tag := Parsed(keys, relays, e).value, e.tags[i];
      && (tag[0] == "relays" && relays.parse(tag[j]).Some? ==> relays.parse(tag[j]).value in r.relays)
      && (tag[0] == "maintainers" ==> keys.parse(tag[j]).Some? && keys.parse(tag[j]).value in r.maintainers)
      && e.pubkey in r.maintainers
  {
    var tag := e.tags[i];
    assert tag[1..][j - 1] == tag[j] && tag[j] in tag[1..];
    assert tag in e.tags && !Unreadable(keys, tag);
    ParsedMember(relays, tag[1..], j - 1);
    ParsedMember(keys, tag[1..], j - 1);
    AllHas(e.tags, tag => RelaysIn(relays, tag), i);
    AllHas(e.tags, tag => MaintainersIn(keys, e.pubkey, tag), i);
    SignerMaintains(keys, e.pubkey, e.tags);
  }

  lemma {:induction false} ParsedMember<T(!new)>(codec: Codec<T>, texts: seq<string>, i: nat)
    requires i < |texts|
    ensures codec.parse(texts[i]).Some? ==> codec.parse(texts[i]).value in ParseAll(codec, texts)
  {
    if i > 0 {
      ParsedMember(codec, texts[1..], i - 1);
    }
  }

  lemma {:induction false} AllHas<T(!new)>(tags: seq<Tag>, read: Tag -> seq<T>, i: nat)
    requires i < |tags|
    ensures forall x | x in read(tags[i]) :: x in All(tags, read)
  {
    if i < |tags| - 1 {
      AllHas(tags[..|tags| - 1], read, i);
    }
  }

  lemma {:induction false} SignerMaintains(keys: Codec<PublicKey>, signer: PublicKey, tags: seq<Tag>)
    requires keys.Valid()
    ensures var all := All(tags, tag => MaintainersIn(keys, signer, tag)); all == [] || signer in all
  {
    if tags != [] {
      SignerMaintains(keys, signer, tags[..|tags| - 1]);
      var texts := if tags[|tags| - 1] == [] then [] else tags[|tags| - 1][1..];
      if k :| 0 <= k < |texts| && texts[k] == keys.show(signer) {
        ParsedMember(keys, texts, k);
      }
    }
  }

  // ---------------------------------------------------------------- announcements met while fetching

  /** What a fetch takes from an announcement. */
  function ListingOf(keys: Codec<PublicKey>, relays: Codec<RelayUrl>, e: Event): Option<Fetch.Listing> {
    match Parsed(keys, relays, e)
    case Ok(r) => Some(Fetch.Listing(r.identifier, r.maintainers))
    case Err(_) => None
  }

  ghost predicate HasOneIdentifier(tags: seq<Tag>, i: nat) {
    i < |tags| && ValueIn(tags[i], "d").Some? && forall j | 0 <= j < |tags| && j != i :: !Named(tags[j], "d")
  }

  lemma {:induction false} OnlyTagged(tags: seq<Tag>, name: string) returns (i: nat)
    requires Tagged(tags, "d", name)
    ensures i < |tags| && ValueIn(tags[i], "d") == Some(name)
  {
    if |tags[0]| > 1 && tags[0][0] == "d" && tags[0][1] == name {
      i := 0;
    } else {
      var k := OnlyTagged(tags[1..], name);
      i := k + 1;
    }
  }

  /** An announcement with one identifier tag, as a printed one, is parsed under the only name it is asked for by. */
  lemma {:induction false} ListingsSinglyNamed(keys: Codec<PublicKey>, relays: Codec<RelayUrl>, relay: set<Event>)
    requires forall e | e in relay && e.kind == GitRepoAnnouncement :: exists i :: HasOneIdentifier(e.tags, i)
    ensures Discovery.SinglyNamed(e => ListingOf(keys, relays, e), relay)
  {
    forall e, name | e in relay && e.kind == GitRepoAnnouncement && ListingOf(keys, relays, e).Some? &&
      Tagged(e.tags, "d", name)
      ensures name == ListingOf(keys, relays, e).value.identifier
    {
      var i :| HasOneIdentifier(e.tags, i);
      var k := OnlyTagged(e.tags, name);
      assert k == i;
      LastAt(e.tags, tag => ValueIn(tag, "d"), "", i);
    }
  }

  lemma {:induction false} PrintedHasOneIdentifier(keys: Codec<PublicKey>, relays: Codec<RelayUrl>, r: RepoRef)
    requires ToTags(keys, relays, r).Ok?
    ensures HasOneIdentifier(ToTags(keys, relays, r).value, 0)
  {
    NamesOf(keys, relays, r, "d", 0);
  }

  ghost predicate IsPrinted(keys: Codec<PublicKey>, relays: Codec<RelayUrl>, e: Event) {
    exists r :: ToTags(keys, relays, r) == Ok(e.tags)
  }

  /** On an honest relay whose announcements were printed by this program, a fetch for coordinates of one identifier
      discovers exactly what the announcements lead to. */
  lemma {:induction false} PrintedDiscovered(keys: Codec<PublicKey>, relays: Codec<RelayUrl>,
      request: Fetch.FetchRequest, relay: set<Event>, identifier: string, seen: set<Event>, report: FetchReport)
    requires forall e | e in relay && e.kind == GitRepoAnnouncement :: IsPrinted(keys, relays, e)
    requires Discovery.OneIdentifier(Fetch.Requested(request), identifier)
    requires Fetch.FromHonest(e => ListingOf(keys, relays, e), request, relay, seen, report)
    ensures Discovery.IsLeastClosed(e => ListingOf(keys, relays, e), request, relay, Fetch.Known(request, report))
  {
    forall e | e in relay && e.kind == GitRepoAnnouncement
      ensures exists i :: HasOneIdentifier(e.tags, i)
    {
      assert IsPrinted(keys, relays, e);
      var r :| ToTags(keys, relays, r) == Ok(e.tags);
      PrintedHasOneIdentifier(keys, relays, r);
      assert HasOneIdentifier(e.tags, 0);
    }
    ListingsSinglyNamed(keys, relays, relay);
    Discovery.LeastDiscovered(e => ListingOf(keys, relays, e), request, relay, identifier, seen, report);
  }

  // ---------------------------------------------------------------- coordinates

  /** `coordinates`: one for each maintainer and the trusted one. */
  method Coordinates(r: RepoRef, trusted: PublicKey) returns (res: set<Coordinate>)
    ensures forall c :: c in res <==> c.identifier == r.identifier && (c.pubkey == trusted || c.pubkey in r.maintainers)
  {
    res := {Coordinate(trusted, r.identifier)};
    for i := 0 to |r.maintainers|
      invariant forall c :: c in res <==>
        c.identifier == r.identifier && (c.pubkey == trusted || c.pubkey in r.maintainers[..i])
    {
      assert r.maintainers[..i + 1] == r.maintainers[..i] + [r.maintainers[i]];
      res := res + {Coordinate(r.maintainers[i], r.identifier)};
    }
    assert r.maintainers[..|r.maintainers|] == r.maintainers;
  }
}
