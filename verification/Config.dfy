/** Two git config strings that act as maps: protocol preferences by server, and keys by nip05 address. */
module Config {
  import opened Wrappers
  import opened Text
  import opened Codecs
  import opened Events

  datatype ServerProtocol = Ssh | Https | Http | Git | Ftp | Filesystem | Unspecified | UnauthHttps | UnauthHttp

  /** `Display for ServerProtocol`, misspelling included. */
  function Show(p: ServerProtocol): string {
    match p
    case Http => "http"
    case Https => "https"
    case Ftp => "ftp"
    case Ssh => "ssh"
    case Git => "git"
    case Filesystem => "filesystem"
    case Unspecified => "unsepcified"
    case UnauthHttps => "https (unauthenticated)"
    case UnauthHttp => "http (unauthenticated)"
  }

  /** `FromStr for ServerProtocol` */
  function Parse(s: string): Option<ServerProtocol> {
    if s == "http" then Some(Http)
    else if s == "https" then Some(Https)
    else if s == "ftp" then Some(Ftp)
    else if s == "ssh" then Some(Ssh)
    else if s == "git" then Some(Git)
    else if s == "filesystem" then Some(Filesystem)
    else if s == "http (unauthenticated)" then Some(UnauthHttp)
    else if s == "https (unauthenticated)" then Some(UnauthHttps)
    else None
  }

  /** Every protocol but the unspecified one is read back as it was written. */
  lemma {:induction false} ShownIsParsed(p: ServerProtocol)
    ensures Parse(Show(p)) == (if p == Unspecified then None else Some(p))
  {
    var shown := Show(p);
    match p
    case Http => assert |shown| == 4 && shown[0] == 'h';
    case Https => assert |shown| == 5 && shown[0] == 'h';
    case Ftp => assert |shown| == 3 && shown[0] == 'f';
    case Ssh => assert |shown| == 3 && shown[0] == 's';
    case Git => assert |shown| == 3 && shown[0] == 'g';
    case Filesystem => assert |shown| == 10 && shown[0] == 'f';
    case Unspecified => assert |shown| == 11 && shown[0] == 'u';
    case UnauthHttps => assert |shown| == 23;
    case UnauthHttp => assert |shown| == 22;
  }

  lemma {:induction false} ShownFree(p: ServerProtocol)
    ensures Free(Show(p), ',') && Free(Show(p), ';')
  {}

  // ---------------------------------------------------------------- protocol preferences

  /** The server that an item of the list is about. */
  function ServerOf(item: string): Option<string> {
    if |Split(item, ',')| > 1 then Some(Split(item, ',')[1]) else None
  }

  function ProtocolOf(item: string): Option<ServerProtocol> {
    Parse(Split(item, ',')[0])
  }

  /** The first item for the server whose protocol can be parsed. */
  function PreferenceIn(items: seq<string>, server: string): Option<ServerProtocol> {
    if items == [] then None
    else if ServerOf(items[0]) == Some(server) && ProtocolOf(items[0]).Some? then ProtocolOf(items[0])
    else PreferenceIn(items[1..], server)
  }

  function Preference(config: Option<string>, server: string): Option<ServerProtocol> {
    if config.None? then None else PreferenceIn(Split(config.value, ';'), server)
  }

  method GetProtocolPreference(config: Option<string>, server: string) returns (r: Option<ServerProtocol>)
    ensures r == Preference(config, server)
  {
    if config.None? {
      return None;
    }
    var items := Split(config.value, ';');
    for i := 0 to |items|
      invariant PreferenceIn(items, server) == PreferenceIn(items[i..], server)
    {
      var pair := Split(items[i], ',');
      if |pair| > 1 && pair[1] == server {
        var protocol := Parse(pair[0]);
        if protocol.Some? {
          return protocol;
        }
      }
    }
    return None;
  }

  /** The items about other servers, in their order. */
  function Others(items: seq<string>, server: string): seq<string> {
    if items == [] then []
    else
      var first := ServerOf(items[0]);
      (if first.Some? && first.value != server then [items[0]] else []) + Others(items[1..], server)
  }

  function Terminated(items: seq<string>): string {
    if items == [] then "" else items[0] + ";" + Terminated(items[1..])
  }

  function ItemsOf(config: Option<string>): seq<string> {
    if config.None? then [] else Split(config.value, ';')
  }

  function Entry(protocol: ServerProtocol, server: string): string {
    Show(protocol) + "," + server
  }

  /** The list once the preference is set. */
  function Updated(config: Option<string>, protocol: ServerProtocol, server: string): string {
    Terminated(Others(ItemsOf(config), server)) + Entry(protocol, server) + ";"
  }

  method SetProtocolPreference(config: Option<string>, protocol: ServerProtocol, server: string)
    returns (updated: string)
    ensures updated == Updated(config, protocol, server)
  {
    updated := "";
    if config.Some? {
      updated := KeepOthers(Split(config.value, ';'), server);
    }
    updated := updated + (Show(protocol) + "," + server) + ";";
  }

  method KeepOthers(items: seq<string>, server: string) returns (kept: string)
    ensures kept == Terminated(Others(items, server))
  {
    kept := "";
    for i := 0 to |items|
      invariant Terminated(Others(items, server)) == kept + Terminated(Others(items[i..], server))
    {
      OthersFirst(items, i, server);
      var item := items[i];
      var pair := Split(item, ',');
      if |pair| > 1 && pair[1] != server && item != "" {
        kept := kept + (item + ";");
      }
    }
  }

  lemma {:induction false} OthersFirst(items: seq<string>, i: nat, server: string)
    requires i < |items|
    ensures Terminated(Others(items[i..], server)) ==
      (if ServerOf(items[i]).Some? && ServerOf(items[i]).value != server && items[i] != "" then items[i] + ";"
        else "") + Terminated(Others(items[i + 1..], server))
  {
    assert items[i..][1..] == items[i + 1..];
    var rest := Others(items[i + 1..], server);
    if ServerOf(items[i]).Some? && ServerOf(items[i]).value != server {
      assert ([items[i]] + rest)[1..] == rest;
    } else {
      assert [] + rest == rest;
    }
  }

  lemma {:induction false} Regroup(a: string, b: string, c: string)
    ensures (a + ";" + b) + c == a + ";" + (b + c)
  {}

  lemma {:induction false} SplitTerminated(items: seq<string>, rest: string)
    requires forall x | x in items :: Free(x, ';')
    ensures Split(Terminated(items) + rest, ';') == items + Split(rest, ';')
  {
    if items == [] {
      assert Terminated(items) + rest == rest;
    } else {
      Regroup(items[0], Terminated(items[1..]), rest);
      SplitFirst(items[0], ';', Terminated(items[1..]) + rest);
      SplitTerminated(items[1..], rest);
      assert items == [items[0]] + items[1..];
    }
  }

  lemma {:induction false} OthersFree(items: seq<string>, server: string, d: char)
    requires forall x | x in items :: Free(x, d)
    ensures forall x | x in Others(items, server) :: Free(x, d)
  {
    if items != [] {
      OthersFree(items[1..], server, d);
    }
  }

  /** The items read after setting: the others, what the new entry comes apart into, and an empty one. */
  lemma {:induction false} ItemsAfterSet(config: Option<string>, protocol: ServerProtocol, server: string)
    ensures Split(Updated(config, protocol, server), ';') ==
      Others(ItemsOf(config), server) + Split(Entry(protocol, server) + ";", ';')
    ensures Free(server, ';') ==> Split(Entry(protocol, server) + ";", ';') == [Entry(protocol, server), ""]
  {
    var others := Others(ItemsOf(config), server);
    if config.Some? {
      Pieces(config.value, ';');
    }
    OthersFree(ItemsOf(config), server, ';');
    assert Updated(config, protocol, server) == Terminated(others) + (Entry(protocol, server) + ";");
    SplitTerminated(others, Entry(protocol, server) + ";");
    if Free(server, ';') {
      ShownFree(protocol);
      assert Entry(protocol, server) + ";" == Entry(protocol, server) + ";" + "";
      SplitFirst(Entry(protocol, server), ';', "");
    }
  }

  lemma {:induction false} PreferenceConcat(a: seq<string>, b: seq<string>, server: string)
    ensures PreferenceIn(a + b, server) == if PreferenceIn(a, server).Some? then PreferenceIn(a, server)
      else PreferenceIn(b, server)
  {
    if a == [] {
      assert a + b == b;
    } else {
      PreferenceConcat(a[1..], b, server);
      assert (a + b)[1..] == a[1..] + b;
    }
  }

  lemma {:induction false} PreferenceOfOthers(items: seq<string>, server: string, other: string)
    ensures PreferenceIn(Others(items, server), other) == if other == server then None else PreferenceIn(items, other)
  {
    if items != [] {
      PreferenceOfOthers(items[1..], server, other);
      var kept := if ServerOf(items[0]).Some? && ServerOf(items[0]).value != server then [items[0]] else [];
      PreferenceConcat(kept, Others(items[1..], server), other);
      if kept != [] {
        assert kept[1..] == [];
      }
    }
  }

  /** An item is only ever about a server whose name has no delimiter. */
  lemma {:induction false} ServerHasNoDelimiter(item: string)
    requires Free(item, ';') && ServerOf(item).Some?
    ensures Free(ServerOf(item).value, ',') && Free(ServerOf(item).value, ';')
  {
    Piece(item, ',', 1);
  }

  lemma {:induction false} NoServerWithDelimiter(items: seq<string>, server: string)
    requires forall x | x in items :: Free(x, ';')
    requires !Free(server, ',') || !Free(server, ';')
    ensures PreferenceIn(items, server) == None
  {
    if items != [] {
      assert items[0] in items;
      if ServerOf(items[0]).Some? {
        ServerHasNoDelimiter(items[0]);
      }
      assert ServerOf(items[0]) != Some(server);
      NoServerWithDelimiter(items[1..], server);
    }
  }

  lemma {:induction false} EntryRead(protocol: ServerProtocol, server: string)
    requires Free(server, ',')
    ensures ServerOf(Entry(protocol, server)) == Some(server)
    ensures Split(Entry(protocol, server), ',')[0] == Show(protocol)
  {
    ShownFree(protocol);
    SplitFirst(Show(protocol), ',', server);
    SplitWhole(server, ',');
  }

  /** What follows the last semicolon is about no server. */
  /** An entry at the start of the list is the server's preference, and is passed over for any other server. */
  lemma {:induction false} LeadingEntry(name: string, protocol: ServerProtocol, server: string, rest: string,
      other: string)
    requires (name, protocol) in [("http", Http), ("https", Https), ("ftp", Ftp), ("ssh", Ssh), ("git", Git),
      ("filesystem", Filesystem), ("http (unauthenticated)", UnauthHttp), ("https (unauthenticated)", UnauthHttps)]
    requires Free(server, ',') && Free(server, ';') && other != server
    ensures Preference(Some(name + "," + server + ";" + rest), server) == Some(protocol)
    ensures Preference(Some(name + "," + server + ";" + rest), other) == Preference(Some(rest), other)
  {
    NameRead(name, protocol);
    var item := name + "," + server;
    SplitFirst(name, ',', server);
    SplitWhole(server, ',');
    SplitFirst(item, ';', rest);
    assert Split(item, ',') == [name, server];
    assert ([item] + Split(rest, ';'))[1..] == Split(rest, ';');
  }

  lemma {:induction false} NameRead(name: string, protocol: ServerProtocol)
    requires (name, protocol) in [("http", Http), ("https", Https), ("ftp", Ftp), ("ssh", Ssh), ("git", Git),
      ("filesystem", Filesystem), ("http (unauthenticated)", UnauthHttp), ("https (unauthenticated)", UnauthHttps)]
    ensures Parse(name) == Some(protocol) && Free(name, ',') && Free(name, ';')
  {
    assert name == Show(protocol) && protocol != Unspecified;
    ShownIsParsed(protocol);
    ShownFree(protocol);
  }

  lemma {:induction false} EmptyItem(entry: string, server: string)
    ensures PreferenceIn([entry, ""], server) == if ServerOf(entry) == Some(server) then ProtocolOf(entry) else None
    ensures EntriesFor([entry, ""], server) == if ServerOf(entry) == Some(server) then 1 else 0
  {
    assert [entry, ""][1..] == [""] && [""][1..] == [] && ServerOf("") == None;
    assert PreferenceIn([""], server) == None && EntriesFor([""], server) == 0;
  }

  /** A preference set is the preference read if and only if the protocol has a readable name and the
      server's name has no delimiter. */
  lemma {:induction false} GetAfterSet(config: Option<string>, protocol: ServerProtocol, server: string)
    ensures Preference(Some(Updated(config, protocol, server)), server) == Some(protocol)
       <==> (protocol != Unspecified && Free(server, ',') && Free(server, ';'))
  {
    ItemsAfterSet(config, protocol, server);
    var others := Others(ItemsOf(config), server);
    if Free(server, ',') && Free(server, ';') {
      var added := [Entry(protocol, server), ""];
      PreferenceConcat(others, added, server);
      PreferenceOfOthers(ItemsOf(config), server, server);
      EntryRead(protocol, server);
      ShownIsParsed(protocol);
      EmptyItem(Entry(protocol, server), server);
    } else {
      Pieces(Updated(config, protocol, server), ';');
      NoServerWithDelimiter(Split(Updated(config, protocol, server), ';'), server);
    }
  }

  lemma {:induction false} OtherKept(config: Option<string>, protocol: ServerProtocol, server: string, other: string)
    requires Free(server, ',') && Free(server, ';') && other != server
    ensures Preference(Some(Updated(config, protocol, server)), other) == Preference(config, other)
  {
    ItemsAfterSet(config, protocol, server);
    var added := [Entry(protocol, server), ""];
    PreferenceConcat(Others(ItemsOf(config), server), added, other);
    PreferenceOfOthers(ItemsOf(config), server, other);
    EntryRead(protocol, server);
    EmptyItem(Entry(protocol, server), other);
  }

  /** Up to the first delimiter. */
  function Head(s: string): (h: string)
    ensures h <= s && Free(h, ',') && Free(h, ';')
    ensures h == s <==> Free(s, ',') && Free(s, ';')
    ensures h != s ==> s[|h|] == ',' || s[|h|] == ';'
  {
    if s == "" || s[0] == ',' || s[0] == ';' then ""
    else
      assert s == [s[0]] + s[1..];
      [s[0]] + Head(s[1..])
  }

  /** Up to a semicolon, the server's entry is read as one for the name's beginning. */
  lemma {:induction false} CutAtSemicolon(protocol: ServerProtocol, head: string, tail: string)
    requires Free(head, ',') && Free(head, ';')
    ensures var first := Split(Show(protocol) + "," + head + ";" + tail, ';')[0];
      Split(first, ',') == [Show(protocol), head]
  {
    ShownFree(protocol);
    SplitFirst(Show(protocol) + "," + head, ';', tail);
    SplitFirst(Show(protocol), ',', head);
    SplitWhole(head, ',');
  }

  lemma {:induction false} CutAtComma(protocol: ServerProtocol, head: string, tail: string)
    requires Free(head, ',') && Free(head, ';')
    ensures var first := Split(Show(protocol) + "," + head + "," + tail, ';')[0];
      |Split(first, ',')| > 1 && Split(first, ',')[0] == Show(protocol) && Split(first, ',')[1] == head
  {
    ShownFree(protocol);
    var start := Show(protocol) + "," + head + ",";
    SplitPrefix(start, ';', tail);
    var rest := Split(tail, ';')[0];
    assert start + rest == Show(protocol) + "," + (head + "," + rest);
    SplitFirst(Show(protocol), ',', head + "," + rest);
    SplitFirst(head, ',', rest);
  }

  lemma {:induction false} FirstItemDecides(items: seq<string>, protocol: ServerProtocol, server: string)
    requires items != [] && protocol != Unspecified
    requires |Split(items[0], ',')| > 1 && Split(items[0], ',')[0] == Show(protocol) &&
      Split(items[0], ',')[1] == server
    ensures PreferenceIn(items, server) == Some(protocol)
  {
    ShownIsParsed(protocol);
  }

  lemma {:induction false} Regrouped(shown: string, head: string, d: string, tail: string)
    ensures shown + "," + (head + d + tail) + ";" == shown + "," + head + d + (tail + ";")
  {}

  /** With a delimiter in its name, the server's entry is read as one for the name's beginning. */
  lemma {:induction false} EntryMisread(protocol: ServerProtocol, server: string)
    requires protocol != Unspecified && !(Free(server, ',') && Free(server, ';'))
    ensures PreferenceIn(Split(Entry(protocol, server) + ";", ';'), Head(server)) == Some(protocol)
  {
    var head, tail := Head(server), server[|Head(server)| + 1..];
    var d := [server[|head|]];
    assert server == head + d + tail;
    var text := Entry(protocol, server) + ";";
    Regrouped(Show(protocol), head, d, tail);
    assert text == Show(protocol) + "," + head + d + (tail + ";");
    CutAt(protocol, head, d, tail + ";");
    FirstItemDecides(Split(text, ';'), protocol, head);
  }

  lemma {:induction false} CutAt(protocol: ServerProtocol, head: string, d: string, tail: string)
    requires Free(head, ',') && Free(head, ';') && d in [",", ";"]
    ensures var first := Split(Show(protocol) + "," + head + d + tail, ';')[0];
      |Split(first, ',')| > 1 && Split(first, ',')[0] == Show(protocol) && Split(first, ',')[1] == head
  {
    if d == ";" {
      CutAtSemicolon(protocol, head, tail);
    } else {
      CutAtComma(protocol, head, tail);
    }
  }

  /** The item is read as a preference of some server. */
  predicate IsReadable(item: string) {
    ServerOf(item).Some? && ProtocolOf(item).Some?
  }

  /** What the server's entry adds to the list when its protocol cannot be read: nothing, unless its own name goes on,
      past a semicolon, with something that can. */
  predicate AddsNothing(protocol: ServerProtocol, server: string) {
    protocol == Unspecified && forall i | 1 <= i < |Split(server, ';')| :: !IsReadable(Split(server, ';')[i])
  }

  lemma {:induction false} NothingReadable(items: seq<string>, server: string)
    requires forall i | 0 <= i < |items| :: !IsReadable(items[i])
    ensures PreferenceIn(items, server) == None
  {
    if items != [] {
      NothingReadable(items[1..], server);
    }
  }

  lemma {:induction false} SomethingRead(items: seq<string>, i: nat)
    requires i < |items| && IsReadable(items[i])
    ensures PreferenceIn(items, ServerOf(items[i]).value).Some?
  {
    if i > 0 {
      SomethingRead(items[1..], i - 1);
    }
  }

  /** The pieces of an unreadable entry: an unreadable one, the further pieces of the name and an empty one. */
  lemma {:induction false} UnreadableEntry(server: string)
    ensures var items, pieces := Split(Entry(Unspecified, server) + ";", ';'), Split(server, ';');
      && |items| == |pieces| + 1 && !IsReadable(items[0]) && items[|pieces|] == ""
      && forall i | 1 <= i < |pieces| :: items[i] == pieces[i]
  {
    hide *;
    var start := Show(Unspecified) + ",";
    EntryIs(Unspecified, server);
    assert Entry(Unspecified, server) + ";" == start + (server + ";");
    ShownFree(Unspecified);
    CommaIsFree(Show(Unspecified));
    SplitConcat(server, ';', "");
    SplitEmpty(';');
    assert server + ";" + "" == server + ";";
    SplitPrefix(start, ';', server + ";");
    var first := Split(server + ";", ';')[0];
    assert start + first == Show(Unspecified) + "," + first;
    UnreadableItem(first);
  }

  lemma {:induction false} EntryIs(protocol: ServerProtocol, server: string)
    ensures Entry(protocol, server) == Show(protocol) + "," + server
  {}

  lemma {:induction false} CommaIsFree(s: string)
    ensures Free(s, ';') ==> Free(s + ",", ';')
  {}

  lemma {:induction false} SplitEmpty(d: char)
    ensures Split("", d) == [""]
  {}

  lemma {:induction false} UnreadableItem(rest: string)
    ensures !IsReadable(Show(Unspecified) + "," + rest)
  {
    ShownFree(Unspecified);
    ShownIsParsed(Unspecified);
    SplitFirst(Show(Unspecified), ',', rest);
    hide Show, Parse;
  }

  lemma {:induction false} UnreadableAddsNothing(config: Option<string>, server: string, other: string)
    requires AddsNothing(Unspecified, server) && other != server
    ensures Preference(Some(Updated(config, Unspecified, server)), other) == Preference(config, other)
  {
    hide *;
    var added := Split(Entry(Unspecified, server) + ";", ';');
    ItemsAfterSet(config, Unspecified, server);
    NothingAdded(server);
    NothingReadable(added, other);
    PreferenceConcat(Others(ItemsOf(config), server), added, other);
    PreferenceOfOthers(ItemsOf(config), server, other);
    PreferenceItems(config, other);
    PreferenceItems(Some(Updated(config, Unspecified, server)), other);
  }

  lemma {:induction false} PreferenceItems(config: Option<string>, server: string)
    ensures Preference(config, server) == PreferenceIn(ItemsOf(config), server)
    ensures config.Some? ==> ItemsOf(config) == Split(config.value, ';')
  {}

  lemma {:induction false} NothingAdded(server: string)
    requires AddsNothing(Unspecified, server)
    ensures var added := Split(Entry(Unspecified, server) + ";", ';');
      forall i | 0 <= i < |added| :: !IsReadable(added[i])
  {
    UnreadableEntry(server);
    assert ServerOf("") == None;
    hide Split, Entry, ServerOf, ProtocolOf;
  }

  lemma {:induction false} UnreadableAdds(server: string) returns (other: string)
    requires !AddsNothing(Unspecified, server)
    ensures other != server && Preference(Some(Updated(None, Unspecified, server)), other).Some?
  {
    hide Show, Parse, Split;
    var pieces := Split(server, ';');
    var i :| 1 <= i < |pieces| && IsReadable(pieces[i]);
    UnreadableEntry(server);
    var text := Entry(Unspecified, server) + ";";
    SomethingRead(Split(text, ';'), i);
    other := ServerOf(pieces[i]).value;
    Piece(server, ';', i);
    ServerHasNoDelimiter(pieces[i]);
    if Free(server, ';') {
      SplitWhole(server, ';');
      assert false;
    }
    assert Updated(None, Unspecified, server) == text;
  }

  ghost predicate LeavesOthers(protocol: ServerProtocol, server: string) {
    forall config, other | other != server ::
      Preference(Some(Updated(config, protocol, server)), other) == Preference(config, other)
  }

  /** Setting a preference never changes that of another server if and only if the server's name has no delimiter,
      or the protocol cannot be read and neither can anything in the name. */
  lemma {:induction false} OthersKept(protocol: ServerProtocol, server: string)
    ensures LeavesOthers(protocol, server) <==>
      ((Free(server, ',') && Free(server, ';')) || AddsNothing(protocol, server))
  {
    UnspecifiedOnly(protocol, server);
    hide Preference, Updated, AddsNothing, Free;
    if Free(server, ',') && Free(server, ';') {
      forall config, other | other != server
        ensures Preference(Some(Updated(config, protocol, server)), other) == Preference(config, other)
      {
        OtherKept(config, protocol, server, other);
      }
    } else if protocol != Unspecified {
      MisreadChanges(protocol, server);
    } else if AddsNothing(protocol, server) {
      forall config, other | other != server
        ensures Preference(Some(Updated(config, protocol, server)), other) == Preference(config, other)
      {
        UnreadableAddsNothing(config, server, other);
      }
    } else {
      ReadableChanges(server);
    }
  }

  lemma {:induction false} UnspecifiedOnly(protocol: ServerProtocol, server: string)
    ensures AddsNothing(protocol, server) ==> protocol == Unspecified
  {}

  lemma {:induction false} MisreadChanges(protocol: ServerProtocol, server: string)
    requires protocol != Unspecified && !(Free(server, ',') && Free(server, ';'))
    ensures !LeavesOthers(protocol, server)
  {
    EntryMisread(protocol, server);
    UpdatedNothing(protocol, server);
    var other := Head(server);
    hide PreferenceIn, Split, Entry, Updated, Head;
    assert Preference(Some(Updated(None, protocol, server)), other) != Preference(None, other);
  }

  lemma {:induction false} UpdatedNothing(protocol: ServerProtocol, server: string)
    ensures Updated(None, protocol, server) == Entry(protocol, server) + ";"
  {
    hide Entry;
  }

  lemma {:induction false} ReadableChanges(server: string)
    requires !AddsNothing(Unspecified, server)
    ensures !LeavesOthers(Unspecified, server)
  {
    var other := UnreadableAdds(server);
    hide AddsNothing, PreferenceIn, Updated;
    assert Preference(None, other) == None;
  }

  function EntriesFor(items: seq<string>, server: string): nat {
    if items == [] then 0 else (if ServerOf(items[0]) == Some(server) then 1 else 0) + EntriesFor(items[1..], server)
  }

  lemma {:induction false} EntriesConcat(a: seq<string>, b: seq<string>, server: string)
    ensures EntriesFor(a + b, server) == EntriesFor(a, server) + EntriesFor(b, server)
  {
    if a == [] {
      assert a + b == b;
    } else {
      EntriesConcat(a[1..], b, server);
      assert (a + b)[1..] == a[1..] + b;
    }
  }

  lemma {:induction false} EntriesOfOthers(items: seq<string>, server: string, other: string)
    ensures EntriesFor(Others(items, server), other) == if other == server then 0 else EntriesFor(items, other)
  {
    if items != [] {
      EntriesOfOthers(items[1..], server, other);
      var kept := if ServerOf(items[0]).Some? && ServerOf(items[0]).value != server then [items[0]] else [];
      EntriesConcat(kept, Others(items[1..], server), other);
      if kept != [] {
        assert kept[1..] == [];
      }
    }
  }

  lemma {:induction false} NoEntryWithDelimiter(items: seq<string>, server: string)
    requires forall x | x in items :: Free(x, ';')
    requires !Free(server, ',') || !Free(server, ';')
    ensures EntriesFor(items, server) == 0
  {
    if items != [] {
      assert items[0] in items;
      if ServerOf(items[0]).Some? {
        ServerHasNoDelimiter(items[0]);
      }
      NoEntryWithDelimiter(items[1..], server);
    }
  }

  /** After setting, one entry for the server, and for another as many as before. */
  predicate CountsRight(config: Option<string>, protocol: ServerProtocol, server: string, other: string) {
    EntriesFor(Split(Updated(config, protocol, server), ';'), other) == if other == server then 1
      else EntriesFor(ItemsOf(config), other)
  }

  lemma {:induction false} EntriesAfterSet(config: Option<string>, protocol: ServerProtocol, server: string,
      other: string)
    requires Free(server, ',') && Free(server, ';')
    ensures CountsRight(config, protocol, server, other)
  {
    ItemsAfterSet(config, protocol, server);
    var added := [Entry(protocol, server), ""];
    EntriesConcat(Others(ItemsOf(config), server), added, other);
    EntriesOfOthers(ItemsOf(config), server, other);
    EntryRead(protocol, server);
    EmptyItem(Entry(protocol, server), other);
  }

  /** Setting leaves exactly one entry for the server, however many there were, and as many as before for every other
      one, if and only if the server's name has no delimiter. */
  lemma {:induction false} OneEntry(config: Option<string>, protocol: ServerProtocol, server: string)
    ensures (forall other :: CountsRight(config, protocol, server, other)) <==> (Free(server, ',') && Free(server, ';'))
  {
    if Free(server, ',') && Free(server, ';') {
      forall other
        ensures CountsRight(config, protocol, server, other)
      {
        EntriesAfterSet(config, protocol, server, other);
      }
    } else {
      Pieces(Updated(config, protocol, server), ';');
      NoEntryWithDelimiter(Split(Updated(config, protocol, server), ';'), server);
      assert !CountsRight(config, protocol, server, server);
    }
  }

  // ---------------------------------------------------------------- the nip05 cache

  type Cache = map<string, PublicKey>

  /** What one pair adds to the cache. */
  function WithPair(keys: Codec<PublicKey>, cache: Cache, pair: string): Cache {
    match SplitOnce(pair, ':')
    case None => cache
    case Some((address, key)) => if keys.parse(key).Some? then cache[address := keys.parse(key).value] else cache
  }

  function Loaded(keys: Codec<PublicKey>, pairs: seq<string>): Cache {
    if pairs == [] then map[] else WithPair(keys, Loaded(keys, pairs[..|pairs| - 1]), pairs[|pairs| - 1])
  }

  function StoredPairs(stored: Option<string>): seq<string> {
    Split(if stored.Some? then stored.value else "", ',')
  }

  /** `load_nip_cache` */
  method LoadNipCache(keys: Codec<PublicKey>, stored: Option<string>) returns (h: Cache)
    ensures h == Loaded(keys, StoredPairs(stored))
  {
    h := map[];
    var pairs := StoredPairs(stored);
    for i := 0 to |pairs|
      invariant h == Loaded(keys, pairs[..i])
    {
      assert pairs[..i + 1][..i] == pairs[..i];
      var pair := SplitOnce(pairs[i], ':');
      if pair.Some? {
        var key := keys.parse(pair.value.1);
        if key.Some? {
          h := h[pair.value.0 := key.value];
        }
      }
    }
    assert pairs[..|pairs|] == pairs;
  }

  function Pair(keys: Codec<PublicKey>, cache: Cache, address: string): string
    requires address in cache
  {
    address + ":" + keys.show(cache[address])
  }

  function Pairs(keys: Codec<PublicKey>, cache: Cache, order: seq<string>): seq<string>
    requires forall a | a in order :: a in cache
  {
    if order == [] then [] else Pairs(keys, cache, order[..|order| - 1]) + [Pair(keys, cache, order[|order| - 1])]
  }

  /** All entries, once each, in some order. */
  ghost predicate Enumerates(order: seq<string>, cache: Cache) {
    && (forall a :: a in order <==> a in cache)
    && (forall i, j | 0 <= i < j < |order| :: order[i] != order[j])
  }

  /** `save_nip05_to_git_config_cache`; the order is whatever the map iterates in. */
  method SaveNip05(keys: Codec<PublicKey>, stored: Option<string>, address: string, key: PublicKey)
    returns (s: string, order: seq<string>)
    ensures var cache := Loaded(keys, StoredPairs(stored))[address := key];
      Enumerates(order, cache) && s == Join(Pairs(keys, cache, order), ',')
  {
    var h := LoadNipCache(keys, stored);
    h := h[address := key];
    order := [];
    var pairs: seq<string> := [];
    var todo := h.Keys;
    while todo != {}
      invariant todo <= h.Keys
      invariant forall a :: a in order <==> a in h.Keys - todo
      invariant forall i, j | 0 <= i < j < |order| :: order[i] != order[j]
      invariant pairs == Pairs(keys, h, order)
    {
      var a :| a in todo;
      assert a !in order;
      pairs := pairs + [Pair(keys, h, a)];
      assert (order + [a])[..|order|] == order;
      order := order + [a];
      todo := todo - {a};
    }
    s := Join(pairs, ',');
  }

  /** A pair at the end of what is stored decides for its address, if its key can be read, and for no other. */
  lemma {:induction false} LastPair(keys: Codec<PublicKey>, before: string, address: string, text: string)
    requires Free(address, ',') && Free(address, ':') && Free(text, ',')
    ensures Loaded(keys, StoredPairs(Some(before + "," + (address + ":" + text)))) ==
      if keys.parse(text).None? then Loaded(keys, StoredPairs(Some(before)))
      else Loaded(keys, StoredPairs(Some(before)))[address := keys.parse(text).value]
  {
    var pair := address + ":" + text;
    SplitConcat(before, ',', pair);
    SplitWhole(pair, ',');
    SplitOnceFirst(address, ':', text);
    var pairs := Split(before, ',') + [pair];
    assert pairs[..|pairs| - 1] == Split(before, ',');
  }

  /** Addresses read from the config have no delimiter. */
  lemma {:induction false} LoadedFree(keys: Codec<PublicKey>, pairs: seq<string>)
    requires forall p | p in pairs :: Free(p, ',')
    ensures forall a | a in Loaded(keys, pairs) :: Free(a, ':') && Free(a, ',')
  {
    if pairs != [] {
      LoadedFree(keys, pairs[..|pairs| - 1]);
      var last := pairs[|pairs| - 1];
      assert Free(last, ',');
      match SplitOnce(last, ':')
      case None =>
      case Some((address, key)) =>
        forall c | c in address
          ensures c in last
        {}
    }
  }

  lemma {:induction false} SplitOnceFirst(a: string, d: char, b: string)
    requires Free(a, d)
    ensures SplitOnce(a + [d] + b, d) == Some((a, b))
  {
    var s := a + [d] + b;
    if a != [] {
      assert s[0] in a && s[1..] == a[1..] + [d] + b;
      SplitOnceFirst(a[1..], d, b);
      assert [a[0]] + a[1..] == a;
    } else {
      assert s[1..] == b;
    }
  }

  lemma {:induction false} PairAdds(keys: Codec<PublicKey>, cache: Cache, address: string, key: PublicKey)
    requires IsHexCodec(keys) && Free(address, ':')
    ensures WithPair(keys, cache, address + ":" + keys.show(key)) == cache[address := key]
  {
    SplitOnceFirst(address, ':', keys.show(key));
  }

  /** The entries of the cache that `order` names. */
  ghost function Restricted(cache: Cache, order: seq<string>): Cache {
    map a | a in cache && a in order :: cache[a]
  }

  lemma {:induction false} RestrictedSnoc(cache: Cache, front: seq<string>, last: string)
    requires last in cache
    ensures Restricted(cache, front + [last]) == Restricted(cache, front)[last := cache[last]]
  {}

  lemma {:induction false} PairsLoad(keys: Codec<PublicKey>, cache: Cache, order: seq<string>)
    requires IsHexCodec(keys) && forall a | a in order :: a in cache && Free(a, ':')
    ensures Loaded(keys, Pairs(keys, cache, order)) == Restricted(cache, order)
  {
    if order != [] {
      var front, last := order[..|order| - 1], order[|order| - 1];
      PairsLoad(keys, cache, front);
      hide IsHexCodec, WithPair, Restricted;
      PairAdds(keys, Restricted(cache, front), last, cache[last]);
      var pairs := Pairs(keys, cache, order);
      assert pairs[..|pairs| - 1] == Pairs(keys, cache, front);
      assert order == front + [last];
      RestrictedSnoc(cache, front, last);
    }
  }

  lemma {:induction false} PairsFree(keys: Codec<PublicKey>, cache: Cache, order: seq<string>)
    requires IsHexCodec(keys) && forall a | a in order :: a in cache && Free(a, ',')
    ensures forall p | p in Pairs(keys, cache, order) :: Free(p, ',')
    ensures |Pairs(keys, cache, order)| == |order|
  {
    if order != [] {
      var front, last := order[..|order| - 1], order[|order| - 1];
      PairsFree(keys, cache, front);
      assert Free(keys.show(cache[last]), ',');
    }
  }

  lemma {:induction false} PairsRead(keys: Codec<PublicKey>, cache: Cache, order: seq<string>)
    requires IsHexCodec(keys) && Enumerates(order, cache) && cache != map[]
    requires forall a | a in cache :: Free(a, ':') && Free(a, ',')
    ensures Loaded(keys, Split(Join(Pairs(keys, cache, order), ','), ',')) == cache
  {
    PairsFree(keys, cache, order);
    PairsLoad(keys, cache, order);
    var a :| a in cache;
    assert a in order;
    SplitJoin(Pairs(keys, cache, order), ',');
    assert Restricted(cache, order) == cache;
  }

  /** Saving and loading gives the old cache with the one address updated if and only if the address
      has no delimiter. */
  lemma {:induction false} SavedIsLoaded(keys: Codec<PublicKey>, stored: Option<string>, address: string,
      key: PublicKey, s: string, order: seq<string>)
    requires IsHexCodec(keys)
    requires var cache := Loaded(keys, StoredPairs(stored))[address := key];
      Enumerates(order, cache) && s == Join(Pairs(keys, cache, order), ',')
    ensures Loaded(keys, StoredPairs(Some(s))) == Loaded(keys, StoredPairs(stored))[address := key] <==>
      Free(address, ':') && Free(address, ',')
  {
    var cache := Loaded(keys, StoredPairs(stored))[address := key];
    Pieces(if stored.Some? then stored.value else "", ',');
    LoadedFree(keys, StoredPairs(stored));
    if Free(address, ':') && Free(address, ',') {
      assert address in cache;
      PairsRead(keys, cache, order);
    } else {
      Pieces(s, ',');
      LoadedFree(keys, StoredPairs(Some(s)));
      assert address in cache;
    }
  }
}
