/** Nostr git urls: printing, and parsing with the cache of nip05 addresses. */
module NostrUrl {
  import opened Wrappers
  import opened Text
  import opened Codecs
  import opened Events
  import Config

  type ServerProtocol = Config.ServerProtocol

  datatype NostrUrl = NostrUrl(original: string, pubkey: PublicKey, identifier: string, relays: seq<RelayUrl>,
                               protocol: Option<ServerProtocol>, user: Option<string>, nip05: Option<string>)

  datatype UrlError = NotNostr | BadUrl | BadRelay | BadFormat | WrongKind | UnknownAddress

  /** What a bech32 address of an event stands for. */
  datatype Naddr = Naddr(isAnnouncement: bool, pubkey: PublicKey, identifier: string, relays: seq<RelayUrl>)

  /** What libraries and the network supply: the query parameters of a url, bech32 addresses, keys in bech32,
      relay addresses without trailing slash, and profiles looked up by nip05 address. */
  datatype Library = Library(queryPairs: string -> Option<seq<(string, string)>>, naddr: string -> Option<Naddr>,
                             npub: Codec<PublicKey>, relay: Codec<RelayUrl>,
                             profile: string -> Option<(PublicKey, seq<RelayUrl>)>)
  {
    ghost predicate Valid() {
      && (forall url :: Free(url, '?') && queryPairs(url).Some? ==> queryPairs(url).value == [])
      && (forall url :: queryPairs(url).Some? ==> Weight(queryPairs(url).value) <= QueryLength(url))
      && npub.Valid() && relay.Valid()
      && (forall k :: IsPlain(npub.show(k)) && StartsWith(npub.show(k), "npub1"))
      && (forall s :: !Free(s, '.') || !Free(s, '@') ==> naddr(s).None? && npub.parse(s).None?)
      && (forall s :: naddr(s).Some? ==> StartsWith(s, "naddr1"))
      && (forall s :: naddr(s).Some? ==>
            |npub.show(naddr(s).value.pubkey)| + 1 + |naddr(s).value.identifier| <= |s|)
      && (forall s :: npub.parse(s).Some? ==> |npub.show(npub.parse(s).value)| <= |s|)
      && (forall r :: IsAscii(relay.show(r)))
    }
  }

  /** The length of what follows the first question mark. */
  function QueryLength(url: string): nat {
    match SplitOnce(url, '?')
    case None => 0
    case Some((_, query)) => |query|
  }

  /** The names and values together; decoding makes none longer. */
  function Weight(pairs: seq<(string, string)>): nat {
    if pairs == [] then 0
    else
      var last := pairs[|pairs| - 1];
      Weight(pairs[..|pairs| - 1]) + |last.0| + |last.1|
  }

  predicate IsPlain(s: string) {
    Free(s, '.') && Free(s, '@') && Free(s, '/') && Free(s, '?')
  }

  // ---------------------------------------------------------------- percent-encoding

  /** The unreserved characters of section 2.3 of RFC 3986. */
  predicate IsUnreserved(c: char) {
    'a' <= c <= 'z' || 'A' <= c <= 'Z' || '0' <= c <= '9' || c == '-' || c == '.' || c == '_' || c == '~'
  }

  function HexDigit(n: nat): char
    requires n < 16
  {
    if n < 10 then ('0' as int + n) as char else ('A' as int + (n - 10)) as char
  }

  function HexValue(c: char): Option<nat> {
    if '0' <= c <= '9' then Some(c as int - '0' as int)
    else if 'A' <= c <= 'F' then Some(c as int - 'A' as int + 10)
    else if 'a' <= c <= 'f' then Some(c as int - 'a' as int + 10)
    else None
  }

  function EncodeChar(c: char): string
    requires c as int < 128
  {
    if IsUnreserved(c) then [c] else ['%', HexDigit(c as int / 16), HexDigit(c as int % 16)]
  }

  /** `urlencoding::encode` */
  function Encode(s: string): string
    requires IsAscii(s)
  {
    if s == "" then "" else EncodeChar(s[0]) + Encode(s[1..])
  }

  predicate IsEscape(s: string) {
    |s| > 2 && s[0] == '%' && HexValue(s[1]).Some? && HexValue(s[2]).Some?
  }

  /** `urlencoding::decode`: what is no escape stands for itself. */
  function Decode(s: string): Option<string> {
    if s == "" then Some("")
    else if IsEscape(s) then
      var byte := HexValue(s[1]).value * 16 + HexValue(s[2]).value;
      if byte >= 128 || Decode(s[3..]).None? then None else Some([byte as char] + Decode(s[3..]).value)
    else if Decode(s[1..]).None? then None
    else Some([s[0]] + Decode(s[1..]).value)
  }

  lemma {:induction false} HexDigitRead(n: nat)
    requires n < 16
    ensures HexValue(HexDigit(n)) == Some(n) && HexDigit(n) != '/' && HexDigit(n) != '?'
  {}

  /** Decoding undoes encoding. */
  lemma {:induction false} EncodedIsDecoded(s: string)
    requires IsAscii(s)
    ensures Decode(Encode(s)) == Some(s)
  {
    if s != "" {
      var c, rest := s[0], Encode(s[1..]);
      EncodedIsDecoded(s[1..]);
      assert [c] + s[1..] == s;
      if IsUnreserved(c) {
        assert ([c] + rest)[1..] == rest && c != '%';
      } else {
        HexDigitRead(c as int / 16);
        HexDigitRead(c as int % 16);
        var e := ['%', HexDigit(c as int / 16), HexDigit(c as int % 16)] + rest;
        assert e[3..] == rest;
        assert (c as int / 16) * 16 + c as int % 16 == c as int;
      }
    }
  }

  /** Nothing that separates the parts of a url survives encoding. */
  lemma {:induction false} EncodedIsFree(s: string)
    requires IsAscii(s)
    ensures Free(Encode(s), '/') && Free(Encode(s), '?')
  {
    if s != "" {
      EncodedIsFree(s[1..]);
      if !IsUnreserved(s[0]) {
        HexDigitRead(s[0] as int / 16);
        HexDigitRead(s[0] as int % 16);
      }
    }
  }

  // ---------------------------------------------------------------- relay hints

  function WithScheme(s: string): string {
    if StartsWith(s, "ws://") || StartsWith(s, "wss://") then s else "wss://" + s
  }

  /** The address names its scheme once, at its start. */
  predicate NamesSchemeOnce(s: string) {
    || (StartsWith(s, "wss://") && !Contains(s[6..], "wss://") && !StartsWith(s[6..], "ws://"))
    || (StartsWith(s, "ws://") && !Contains(s, "wss://"))
  }

  /** A relay's address is rebuilt from its hint if and only if it names its scheme only once. */
  lemma {:induction false} SchemeRestored(s: string)
    requires StartsWith(s, "wss://") || StartsWith(s, "ws://")
    ensures WithScheme(Remove(s, "wss://")) == s <==> NamesSchemeOnce(s)
  {
    if StartsWith(s, "wss://") {
      assert s == "wss://" + s[6..] && s[2] == 's';
      RemoveShrinks(s[6..], "wss://");
      if !Contains(s[6..], "wss://") {
        RemoveNothing(s[6..], "wss://");
      }
    } else {
      assert s[2] == ':';
      RemoveShrinks(s, "wss://");
      if !Contains(s, "wss://") {
        RemoveNothing(s, "wss://");
      }
    }
  }

  lemma {:induction false} RemoveKeepsAscii(s: string, sub: string)
    requires sub != "" && IsAscii(s)
    ensures IsAscii(Remove(s, sub))
  {
    if s != "" {
      if StartsWith(s, sub) {
        RemoveKeepsAscii(s[|sub|..], sub);
      } else {
        RemoveKeepsAscii(s[1..], sub);
      }
    }
  }

  function RelayHint(library: Library, relay: RelayUrl): string
    requires IsAscii(library.relay.show(relay))
  {
    RemoveKeepsAscii(library.relay.show(relay), "wss://");
    Encode(Remove(library.relay.show(relay), "wss://"))
  }

  function ReadRelay(library: Library, text: string): Option<RelayUrl> {
    if Decode(text).None? then None else library.relay.parse(WithScheme(Decode(text).value))
  }

  lemma {:induction false} HintIsFree(library: Library, relay: RelayUrl)
    requires library.Valid()
    ensures Free(RelayHint(library, relay), '/') && Free(RelayHint(library, relay), '?')
  {
    RemoveKeepsAscii(library.relay.show(relay), "wss://");
    EncodedIsFree(Remove(library.relay.show(relay), "wss://"));
  }

  lemma {:induction false} HintIsRead(library: Library, relay: RelayUrl)
    requires library.Valid() && NamesSchemeOnce(library.relay.show(relay))
    ensures ReadRelay(library, RelayHint(library, relay)) == Some(relay)
    ensures Free(RelayHint(library, relay), '/') && Free(RelayHint(library, relay), '?')
  {
    var text := library.relay.show(relay);
    RemoveKeepsAscii(text, "wss://");
    EncodedIsDecoded(Remove(text, "wss://"));
    SchemeRestored(text);
    HintIsFree(library, relay);
  }

  // ---------------------------------------------------------------- printing

  /** Who the url names: an address, or else the key. */
  function Owner(library: Library, u: NostrUrl): string {
    if u.nip05.Some? then u.nip05.value else library.npub.show(u.pubkey)
  }

  function Login(u: NostrUrl): string {
    if u.user.Some? then u.user.value + "@" else ""
  }

  function Scheme(u: NostrUrl): string {
    if u.protocol.Some? then Config.Show(u.protocol.value) + "/" else ""
  }

  function Hint(library: Library, u: NostrUrl): string
    requires HasAsciiRelays(library, u)
  {
    if u.relays != [] then RelayHint(library, u.relays[0]) + "/" else ""
  }

  predicate HasAsciiRelays(library: Library, u: NostrUrl) {
    forall i | 0 <= i < |u.relays| :: IsAscii(library.relay.show(u.relays[i]))
  }

  function Printed(library: Library, u: NostrUrl): string
    requires HasAsciiRelays(library, u)
  {
    if u.original != "" then u.original
    else "nostr://" + (Login(u) + (Scheme(u) + (Owner(library, u) + "/" + (Hint(library, u) + u.identifier))))
  }

  // ---------------------------------------------------------------- parsing

  function ReadProtocol(s: string): Option<ServerProtocol> {
    if s == "ssh" then Some(Config.Ssh)
    else if s == "https" then Some(Config.Https)
    else if s == "http" then Some(Config.Http)
    else if s == "git" then Some(Config.Git)
    else None
  }

  /** What the url says besides its coordinate. */
  datatype Options = Options(protocol: Option<ServerProtocol>, user: Option<string>, relays: seq<RelayUrl>)

  const NOTHING := Options(None, None, [])

  function WithPair(library: Library, o: Options, pair: (string, string)): Result<Options, UrlError> {
    if Contains(pair.0, "relay") then
      var relay := ReadRelay(library, pair.1);
      if relay.Some? then Ok(o.(relays := o.relays + [relay.value])) else Err(BadRelay)
    else if pair.0 == "protocol" then Ok(o.(protocol := ReadProtocol(pair.1)))
    else if pair.0 == "user" then Ok(o.(user := Some(pair.1)))
    else Ok(o)
  }

  function QueryOptions(library: Library, pairs: seq<(string, string)>): Result<Options, UrlError> {
    if pairs == [] then Ok(NOTHING)
    else
      var o :- QueryOptions(library, pairs[..|pairs| - 1]);
      WithPair(library, o, pairs[|pairs| - 1])
  }

  /** The protocol, and before an `@` the user, that the first part may give. */
  function FirstPart(part: string, o: Options): Options {
    if !Free(part, '.') then o.(protocol := ReadProtocol(part))
    else
      match SplitOnce(part, '@')
      case Some((user, rest)) => o.(protocol := ReadProtocol(rest), user := Some(user))
      case None => o.(protocol := ReadProtocol(part))
  }

  function ReadRelays(library: Library, texts: seq<string>): Result<seq<RelayUrl>, UrlError> {
    if texts == [] then Ok([])
    else
      var front :- ReadRelays(library, texts[..|texts| - 1]);
      var last := ReadRelay(library, texts[|texts| - 1]);
      if last.Some? then Ok(front + [last.value]) else Err(BadRelay)
  }

  /** The key an address stands for, with the relays of its profile if none are known. */
  function Resolve(library: Library, cache: Config.Cache, address: string, relays: seq<RelayUrl>):
    Result<(PublicKey, seq<RelayUrl>), UrlError>
  {
    if address in cache then Ok((cache[address], relays))
    else
      match library.profile(address)
      case None => Err(UnknownAddress)
      case Some((key, more)) => Ok((key, if relays == [] then more else relays))
  }

  function ReadCoordinate(library: Library, cache: Config.Cache, url: string, parts: seq<string>, o: Options):
    Result<NostrUrl, UrlError>
  {
    if parts == [] then Err(BadFormat)
    else if library.naddr(parts[0]).Some? then
      var naddr := library.naddr(parts[0]).value;
      if naddr.isAnnouncement then Ok(NostrUrl(url, naddr.pubkey, naddr.identifier, naddr.relays, o.protocol, o.user,
        None)) else Err(WrongKind)
    else if |parts| == 1 then Err(BadFormat)
    else
      var more :- ReadRelays(library, parts[1..|parts| - 1]);
      var identifier, relays := parts[|parts| - 1], o.relays + more;
      match library.npub.parse(parts[0])
      case Some(key) => Ok(NostrUrl(url, key, identifier, relays, o.protocol, o.user, None))
      case None =>
        var resolved :- Resolve(library, cache, parts[0], relays);
        Ok(NostrUrl(url, resolved.0, identifier, resolved.1, o.protocol, o.user, Some(parts[0])))
  }

  function Parsed(library: Library, cache: Config.Cache, url: string): Result<NostrUrl, UrlError> {
    if !StartsWith(url, "nostr://") then Err(NotNostr)
    else if library.queryPairs(url).None? then Err(BadUrl)
    else
      var o :- QueryOptions(library, library.queryPairs(url).value);
      var parts := Split(Split(url[8..], '?')[0], '/');
      if o.protocol.Some? then ReadCoordinate(library, cache, url, parts, o)
      else
        var o' := FirstPart(parts[0], o);
        ReadCoordinate(library, cache, url, if o'.protocol.Some? then parts[1..] else parts, o')
  }

  method ReadQuery(library: Library, pairs: seq<(string, string)>) returns (r: Result<Options, UrlError>)
    ensures r == QueryOptions(library, pairs)
  {
    var o := NOTHING;
    for i := 0 to |pairs|
      invariant QueryOptions(library, pairs[..i]) == Ok(o)
    {
      assert pairs[..i + 1][..i] == pairs[..i];
      var (name, value) := pairs[i];
      if Contains(name, "relay") {
        var relay := ReadRelay(library, value);
        if relay.None? {
          QueryFails(library, pairs, i, BadRelay);
          return Err(BadRelay);
        }
        o := o.(relays := o.relays + [relay.value]);
      } else if name == "protocol" {
        o := o.(protocol := ReadProtocol(value));
      } else if name == "user" {
        o := o.(user := Some(value));
      }
    }
    assert pairs[..|pairs|] == pairs;
    return Ok(o);
  }

  /** What the parameters give: the last `user`, the last `protocol` if it is one, and every relay. */
  lemma {:induction false} ParameterRead(library: Library, pairs: seq<(string, string)>, i: nat)
    requires i < |pairs| && QueryOptions(library, pairs).Ok?
    ensures var o, value := QueryOptions(library, pairs).value, pairs[i].1;
      && (pairs[i].0 == "user" && (forall j | i < j < |pairs| :: pairs[j].0 != "user") ==> o.user == Some(value))
      && (pairs[i].0 == "protocol" && (forall j | i < j < |pairs| :: pairs[j].0 != "protocol") ==>
            o.protocol == ReadProtocol(value))
      && (Contains(pairs[i].0, "relay") ==>
            ReadRelay(library, value).Some? && ReadRelay(library, value).value in o.relays)
  {
    var last := pairs[|pairs| - 1];
    QueryStep(library, pairs);
    if i < |pairs| - 1 {
      ParameterRead(library, pairs[..|pairs| - 1], i);
      assert pairs[..|pairs| - 1][i] == pairs[i];
    }
    hide *;
    PairRead(library, QueryOptions(library, pairs[..|pairs| - 1]).value, last);
  }

  lemma {:induction false} QueryStep(library: Library, pairs: seq<(string, string)>)
    requires pairs != [] && QueryOptions(library, pairs).Ok?
    ensures var front := QueryOptions(library, pairs[..|pairs| - 1]);
      front.Ok? && QueryOptions(library, pairs) == WithPair(library, front.value, pairs[|pairs| - 1])
  {
    hide WithPair;
  }

  lemma {:induction false} PairRead(library: Library, o: Options, pair: (string, string))
    requires WithPair(library, o, pair).Ok?
    ensures var r := WithPair(library, o, pair).value;
      && o.relays <= r.relays
      && (if pair.0 == "user" then r.user == Some(pair.1) else r.user == o.user)
      && (if pair.0 == "protocol" then r.protocol == ReadProtocol(pair.1) else r.protocol == o.protocol)
      && (Contains(pair.0, "relay") ==>
            ReadRelay(library, pair.1).Some? && r.relays == o.relays + [ReadRelay(library, pair.1).value])
  {
    hide ReadProtocol, ReadRelay, Contains;
    NamesNoRelay("user");
    NamesNoRelay("protocol");
  }

  lemma {:induction false} NamesNoRelay(name: string)
    requires Free(name, 'y')
    ensures !Contains(name, "relay")
  {
    assert "relay"[4] == 'y';
    StartsOtherwise(name, "relay", 4);
    if name != "" {
      NamesNoRelay(name[1..]);
    }
  }

  lemma {:induction false} QueryFails(library: Library, pairs: seq<(string, string)>, i: nat, error: UrlError)
    requires i < |pairs| && QueryOptions(library, pairs[..i + 1]) == Err(error)
    ensures QueryOptions(library, pairs) == Err(error)
  {
    if i + 1 < |pairs| {
      assert pairs[..|pairs| - 1][..i + 1] == pairs[..i + 1];
      QueryFails(library, pairs[..|pairs| - 1], i, error);
    } else {
      assert pairs[..i + 1] == pairs;
    }
  }

  lemma {:induction false} RelaysFail(library: Library, texts: seq<string>, i: nat)
    requires i < |texts| && ReadRelays(library, texts[..i + 1]) == Err(BadRelay)
    ensures ReadRelays(library, texts) == Err(BadRelay)
  {
    if i + 1 < |texts| {
      assert texts[..|texts| - 1][..i + 1] == texts[..i + 1];
      RelaysFail(library, texts[..|texts| - 1], i);
    } else {
      assert texts[..i + 1] == texts;
    }
  }

  method ReadAllRelays(library: Library, texts: seq<string>) returns (r: Result<seq<RelayUrl>, UrlError>)
    ensures r == ReadRelays(library, texts)
  {
    var relays: seq<RelayUrl> := [];
    for i := 0 to |texts|
      invariant ReadRelays(library, texts[..i]) == Ok(relays)
    {
      assert texts[..i + 1][..i] == texts[..i];
      var relay := ReadRelay(library, texts[i]);
      if relay.None? {
        RelaysFail(library, texts, i);
        return Err(BadRelay);
      }
      relays := relays + [relay.value];
    }
    assert texts[..|texts|] == texts;
    return Ok(relays);
  }

  /** The part of `parse_and_resolve` that reads the coordinate. */
  method FindCoordinate(library: Library, cache: Config.Cache, url: string, parts: seq<string>, o: Options)
    returns (r: Result<NostrUrl, UrlError>)
    ensures r == ReadCoordinate(library, cache, url, parts, o)
  {
    if parts == [] {
      return Err(BadFormat);
    }
    var owner := parts[0];
    // naddr used
    var naddr := library.naddr(owner);
    if naddr.Some? {
      if !naddr.value.isAnnouncement {
        return Err(WrongKind);
      }
      return Ok(NostrUrl(url, naddr.value.pubkey, naddr.value.identifier, naddr.value.relays, o.protocol, o.user,
        None));
    }
    // <npub|nip05_address>/<optional-relays>/identifer used
    if |parts| == 1 {
      return Err(BadFormat);
    }
    var identifier := parts[|parts| - 1];
    var hints :- ReadAllRelays(library, parts[1..|parts| - 1]);
    var relays := o.relays + hints;
    var key := library.npub.parse(owner);
    if key.Some? {
      return Ok(NostrUrl(url, key.value, identifier, relays, o.protocol, o.user, None));
    }
    var resolved :- Resolve(library, cache, owner, relays);
    return Ok(NostrUrl(url, resolved.0, identifier, resolved.1, o.protocol, o.user, Some(owner)));
  }

  /** `parse_and_resolve` */
  method ParseAndResolve(library: Library, cache: Config.Cache, url: string) returns (r: Result<NostrUrl, UrlError>)
    ensures r == Parsed(library, cache, url)
  {
    if !StartsWith(url, "nostr://") {
      return Err(NotNostr);
    }
    var pairs := library.queryPairs(url);
    if pairs.None? {
      return Err(BadUrl);
    }
    var o :- ReadQuery(library, pairs.value);
    var parts := Split(Split(url[8..], '?')[0], '/');
    // extract optional protocol
    if o.protocol.None? {
      var protocolText := parts[0];
      if Free(parts[0], '.') {
        var login := SplitOnce(parts[0], '@');
        if login.Some? {
          o := o.(user := Some(login.value.0));
          protocolText := login.value.1;
        }
      }
      o := o.(protocol := ReadProtocol(protocolText));
      if o.protocol.Some? {
        parts := parts[1..];
      }
    }
    r := FindCoordinate(library, cache, url, parts, o);
  }

  // ---------------------------------------------------------------- round trip

  lemma {:induction false} ShownLacks(p: ServerProtocol, c: char)
    requires c == '.' || c == '@' || c == '/' || c == '?'
    ensures Free(Config.Show(p), c)
  {}

  lemma {:induction false} ShownPlain(p: ServerProtocol)
    ensures IsPlain(Config.Show(p))
  {
    hide Config.Show;
    ShownLacks(p, '.');
    ShownLacks(p, '@');
    ShownLacks(p, '/');
    ShownLacks(p, '?');
  }

  /** The protocols a url can name. */
  predicate IsWritten(p: ServerProtocol) {
    p in {Config.Ssh, Config.Https, Config.Http, Config.Git}
  }

  lemma {:induction false} WrittenIsRead(p: ServerProtocol)
    ensures IsWritten(p) ==> ReadProtocol(Config.Show(p)) == Some(p)
  {
    if IsWritten(p) {
      Config.ShownIsParsed(p);
    }
  }

  lemma {:induction false} ReadIsWritten(s: string)
    ensures ReadProtocol(s).Some? ==> IsWritten(ReadProtocol(s).value) && Free(s, '.') && !StartsWith(s, "npub1")
  {
    assert StartsWith(s, "npub1") ==> s[0] == 'n';
  }

  /** What is printed, with no query opened before the owner. */
  ghost predicate Printable(library: Library, u: NostrUrl) {
    && library.Valid() && HasAsciiRelays(library, u) && u.original == "" && Unasked(u)
  }

  predicate Unasked(u: NostrUrl) {
    u.user.Some? ==> Free(u.user.value, '?')
  }

  /** No question mark is printed, and no slash as part of an address. */
  ghost predicate Unqueried(library: Library, u: NostrUrl) {
    && Printable(library, u) && Free(u.identifier, '?')
    && (u.nip05.Some? ==> Free(u.nip05.value, '/') && Free(u.nip05.value, '?'))
  }

  /** An address is read as one: it is neither a key nor an event's address and resolves to the key of the url without
      adding relays; in first place, it is not taken for a user or protocol. */
  predicate HasReadableAddress(library: Library, cache: Config.Cache, u: NostrUrl) {
    u.nip05.Some? ==>
      var address := u.nip05.value;
      && Free(address, '/') && Free(address, '?') && library.naddr(address).None? && library.npub.parse(address).None?
      && Resolve(library, cache, address, FirstRelay(u)) == Ok((u.pubkey, FirstRelay(u)))
      && (u.protocol.None? ==> !Free(address, '.') || (Free(address, '@') && ReadProtocol(address).None?))
  }

  /** The relay is read back from its hint, as it is if it names its scheme once. */
  predicate HasReadableRelay(library: Library, u: NostrUrl)
    requires HasAsciiRelays(library, u)
  {
    u.relays != [] ==> ReadRelay(library, RelayHint(library, u.relays[0])) == Some(u.relays[0])
  }

  lemma {:induction false} SchemeOnceIsReadable(library: Library, u: NostrUrl)
    requires library.Valid() && (u.relays != [] ==> NamesSchemeOnce(library.relay.show(u.relays[0])))
    ensures HasAsciiRelays(library, u) && HasReadableRelay(library, u)
  {
    if u.relays != [] {
      HintIsRead(library, u.relays[0]);
    }
  }

  function FirstRelay(u: NostrUrl): seq<RelayUrl> {
    if u.relays == [] then [] else [u.relays[0]]
  }

  function Body(library: Library, u: NostrUrl): string
    requires HasAsciiRelays(library, u)
  {
    Login(u) + (Scheme(u) + (Owner(library, u) + "/" + (Hint(library, u) + u.identifier)))
  }

  lemma {:induction false} BodyFree(library: Library, u: NostrUrl)
    requires Unqueried(library, u)
    ensures Free(Body(library, u), '?')
  {
    if u.protocol.Some? {
      ShownPlain(u.protocol.value);
    }
    if u.relays != [] {
      HintIsFree(library, u.relays[0]);
    }
    assert IsPlain(library.npub.show(u.pubkey));
  }

  /** After the scheme, the text is taken apart at slashes if it has no question mark. */
  lemma {:induction false} PartsOfText(library: Library, cache: Config.Cache, url: string, body: string)
    requires library.queryPairs(url) == Some([]) && url == "nostr://" + body && Free(body, '?')
    ensures var parts, first := Split(body, '/'), FirstPart(Split(body, '/')[0], NOTHING);
      Parsed(library, cache, url) ==
        ReadCoordinate(library, cache, url, if first.protocol.Some? then parts[1..] else parts, first)
  {
    assert url[8..] == body;
    SplitWhole(body, '?');
  }

  lemma {:induction false} PartsOfBody(library: Library, cache: Config.Cache, u: NostrUrl)
    requires Unqueried(library, u) && library.queryPairs(Printed(library, u)).Some?
    ensures var parts, first := Split(Body(library, u), '/'), FirstPart(Split(Body(library, u), '/')[0], NOTHING);
      Parsed(library, cache, Printed(library, u))
        == ReadCoordinate(library, cache, Printed(library, u),
             if first.protocol.Some? then parts[1..] else parts, first)
  {
    BodyFree(library, u);
    assert Free("nostr://", '?') && Free(Printed(library, u), '?');
    PartsOfText(library, cache, Printed(library, u), Body(library, u));
  }

  function HintParts(library: Library, u: NostrUrl): seq<string>
    requires HasAsciiRelays(library, u)
  {
    if u.relays != [] then [RelayHint(library, u.relays[0])] else []
  }

  /** The parts after the owner. */
  lemma {:induction false} TailParts(library: Library, u: NostrUrl)
    requires Unqueried(library, u)
    ensures Split(Hint(library, u) + u.identifier, '/') == HintParts(library, u) + Split(u.identifier, '/')
  {
    if u.relays != [] {
      HintIsFree(library, u.relays[0]);
      SplitFirst(RelayHint(library, u.relays[0]), '/', u.identifier);
    } else {
      assert Hint(library, u) + u.identifier == u.identifier;
      assert [] + Split(u.identifier, '/') == Split(u.identifier, '/');
    }
  }

  lemma {:induction false} Grouped(a: string, b: string, c: string, d: string)
    ensures a + (b + "/" + (c + "/" + d)) == a + b + "/" + (c + "/" + d)
    ensures a + ("" + (c + "/" + d)) == a + c + "/" + d
  {}

  lemma {:induction false} OwnerFree(library: Library, u: NostrUrl)
    requires Unqueried(library, u)
    ensures Free(Owner(library, u), '/')
  {
    assert IsPlain(library.npub.show(u.pubkey));
  }

  /** All parts: those of the login and protocol or, with no protocol, of the login and owner come first. */
  lemma {:induction false} BodyParts(library: Library, u: NostrUrl)
    requires Unqueried(library, u)
    ensures var tail := HintParts(library, u) + Split(u.identifier, '/');
      Split(Body(library, u), '/') ==
        if u.protocol.Some? then Split(Login(u) + Config.Show(u.protocol.value), '/') + ([Owner(library, u)] + tail)
        else Split(Login(u) + Owner(library, u), '/') + tail
  {
    TailParts(library, u);
    OwnerFree(library, u);
    var owner, after := Owner(library, u), Hint(library, u) + u.identifier;
    hide *;
    if u.protocol.Some? {
      BodyWithProtocol(library, u);
      SplitFirst(owner, '/', after);
      SplitConcat(Login(u) + Config.Show(u.protocol.value), '/', owner + "/" + after);
    } else {
      BodyWithoutProtocol(library, u);
      SplitConcat(Login(u) + owner, '/', after);
    }
  }

  lemma {:induction false} BodyWithProtocol(library: Library, u: NostrUrl)
    requires HasAsciiRelays(library, u) && u.protocol.Some?
    ensures Body(library, u) == Login(u) + Config.Show(u.protocol.value) + "/" +
      (Owner(library, u) + "/" + (Hint(library, u) + u.identifier))
  {
    Grouped(Login(u), Config.Show(u.protocol.value), Owner(library, u), Hint(library, u) + u.identifier);
  }

  lemma {:induction false} BodyWithoutProtocol(library: Library, u: NostrUrl)
    requires HasAsciiRelays(library, u) && u.protocol.None?
    ensures Body(library, u) == Login(u) + Owner(library, u) + "/" + (Hint(library, u) + u.identifier)
  {
    Grouped(Login(u), "", Owner(library, u), Hint(library, u) + u.identifier);
  }

  /** The user and protocol can be told apart from what follows. */
  predicate HasPlainLogin(u: NostrUrl) {
    && (u.protocol.Some? ==> IsWritten(u.protocol.value))
    && (u.user.Some? ==>
      u.protocol.Some? && Free(u.user.value, '.') && Free(u.user.value, '@') && Free(u.user.value, '/'))
  }

  lemma {:induction false} LoginRead(u: NostrUrl)
    requires HasPlainLogin(u) && u.protocol.Some?
    ensures var first := Login(u) + Config.Show(u.protocol.value);
      Split(first, '/') == [first] && FirstPart(first, NOTHING) == Options(u.protocol, u.user, [])
  {
    var shown := Config.Show(u.protocol.value);
    ShownPlain(u.protocol.value);
    WrittenIsRead(u.protocol.value);
    SplitWhole(Login(u) + shown, '/');
    if u.user.Some? {
      Config.SplitOnceFirst(u.user.value, '@', shown);
    } else {
      assert Login(u) + shown == shown;
    }
  }

  /** In first place, the owner is taken for nothing else. */
  lemma {:induction false} OwnerNoProtocol(library: Library, cache: Config.Cache, u: NostrUrl)
    requires library.Valid() && u.protocol.None? && HasReadableAddress(library, cache, u)
    ensures FirstPart(Owner(library, u), NOTHING) == NOTHING
  {
    var owner := Owner(library, u);
    assert IsPlain(library.npub.show(u.pubkey)) && StartsWith(library.npub.show(u.pubkey), "npub1");
    ReadIsWritten(owner);
  }

  /** With a plain login, reading goes on from the owner. */
  lemma {:induction false} OwnerReached(library: Library, cache: Config.Cache, u: NostrUrl)
    requires Unqueried(library, u) && library.queryPairs(Printed(library, u)).Some?
    requires HasPlainLogin(u) && (u.protocol.None? ==> FirstPart(Owner(library, u), NOTHING) == NOTHING)
    ensures Parsed(library, cache, Printed(library, u)) ==
      ReadCoordinate(library, cache, Printed(library, u), [Owner(library, u)] +
        (HintParts(library, u) + Split(u.identifier, '/')),
                     Options(u.protocol, u.user, []))
  {
    PartsOfBody(library, cache, u);
    BodyParts(library, u);
    var tail := HintParts(library, u) + Split(u.identifier, '/');
    if u.protocol.Some? {
      LoginRead(u);
      var first := Login(u) + Config.Show(u.protocol.value);
      assert ([first] + ([Owner(library, u)] + tail))[1..] == [Owner(library, u)] + tail;
    } else {
      OwnerFree(library, u);
      SplitWhole(Owner(library, u), '/');
      assert Login(u) + Owner(library, u) == Owner(library, u);
    }
  }

  lemma {:induction false} OwnerRead(library: Library, cache: Config.Cache, u: NostrUrl)
    requires library.Valid() && HasReadableAddress(library, cache, u)
    ensures library.naddr(Owner(library, u)).None?
    ensures u.nip05.None? ==> library.npub.parse(Owner(library, u)) == Some(u.pubkey)
    ensures u.nip05.Some? ==> library.npub.parse(Owner(library, u)).None?
    ensures u.nip05.Some? ==> Resolve(library, cache, Owner(library, u), FirstRelay(u)) == Ok((u.pubkey, FirstRelay(u)))
  {
    KeyIsNoNaddr(library, u.pubkey);
  }

  lemma {:induction false} KeyIsNoNaddr(library: Library, key: PublicKey)
    requires library.Valid()
    ensures library.naddr(library.npub.show(key)).None?
  {
    var s := library.npub.show(key);
    assert StartsWith(s, "npub1") && s[1] == 'p' && "naddr1"[1] == 'a';
  }

  lemma {:induction false} HintsRead(library: Library, u: NostrUrl)
    requires HasAsciiRelays(library, u) && HasReadableRelay(library, u)
    ensures ReadRelays(library, HintParts(library, u)) == Ok(FirstRelay(u))
  {
    if u.relays != [] {
      var texts := HintParts(library, u);
      assert texts[..|texts| - 1] == [];
      assert ReadRelays(library, []) == Ok([]);
      assert [] + [u.relays[0]] == [u.relays[0]];
    }
  }

  /** From the owner on, the coordinate is read as its parts say. */
  lemma {:induction false} CoordinateRead(library: Library, cache: Config.Cache, url: string, u: NostrUrl,
      hints: seq<string>, o: Options)
    requires library.naddr(Owner(library, u)).None? && o.relays == []
    requires u.nip05.None? ==> library.npub.parse(Owner(library, u)) == Some(u.pubkey)
    requires u.nip05.Some? ==>
      library.npub.parse(Owner(library, u)).None? &&
      Resolve(library, cache, Owner(library, u), FirstRelay(u)) == Ok((u.pubkey, FirstRelay(u)))
    requires ReadRelays(library, hints) == Ok(FirstRelay(u))
    ensures ReadCoordinate(library, cache, url, [Owner(library, u)] + (hints + [u.identifier]), o)
         == Ok(NostrUrl(url, u.pubkey, u.identifier, FirstRelay(u), o.protocol, o.user, u.nip05))
  {
    var parts := [Owner(library, u)] + (hints + [u.identifier]);
    assert parts[1..|parts| - 1] == hints && parts[|parts| - 1] == u.identifier;
    assert [] + FirstRelay(u) == FirstRelay(u);
  }

  /** With a plain login, identifier, relay and address, everything is read back, but for relays after the first. */
  lemma {:induction false} ReadBack(library: Library, cache: Config.Cache, u: NostrUrl)
    requires Unqueried(library, u) && HasAsciiRelays(library, u) && library.queryPairs(Printed(library, u)).Some?
    requires library.Valid() && HasPlainLogin(u) && HasReadableAddress(library, cache, u) && Free(u.identifier, '/')
    requires HasReadableRelay(library, u)
    ensures Parsed(library, cache, Printed(library, u))
         == Ok(NostrUrl(Printed(library, u), u.pubkey, u.identifier, FirstRelay(u), u.protocol, u.user, u.nip05))
  {
    hide *;
    if u.protocol.None? {
      OwnerNoProtocol(library, cache, u);
    }
    OwnerReached(library, cache, u);
    OwnerRead(library, cache, u);
    HintsRead(library, u);
    SplitWhole(u.identifier, '/');
    CoordinateRead(library, cache, Printed(library, u), u, HintParts(library, u), Options(u.protocol, u.user, []));
  }

  // ---------------------------------------------------------------- what a url says

  /** The protocols that a url names, and naming none. */
  predicate IsNamed(name: string, protocol: Option<ServerProtocol>) {
    (name, protocol) in [("", None), ("ssh", Some(Config.Ssh)), ("https", Some(Config.Https)),
                         ("http", Some(Config.Http)), ("git", Some(Config.Git))]
  }

  /** How a url opens: with the user and protocol, or the protocol alone, or neither. */
  function Front(name: string, user: Option<string>): string {
    (if user.Some? then user.value + "@" else "") + (if name == "" then "" else name + "/")
  }

  lemma {:induction false} NamePlain(name: string, protocol: Option<ServerProtocol>)
    requires IsNamed(name, protocol) && name != ""
    ensures IsPlain(name) && ReadProtocol(name) == protocol && protocol.Some?
  {}

  lemma {:induction false} NamedRead(name: string, protocol: Option<ServerProtocol>, user: Option<string>)
    requires IsNamed(name, protocol) && name != ""
    requires user.Some? ==> IsPlain(user.value)
    ensures var first := (if user.Some? then user.value + "@" else "") + name;
      && Free(first, '/') && Free(first, '?') && FirstPart(first, NOTHING) == Options(protocol, user, [])
  {
    NamePlain(name, protocol);
    hide IsNamed, ReadProtocol, SplitOnce;
    if user.Some? {
      Config.SplitOnceFirst(user.value, '@', name);
      var first := user.value + "@" + name;
      assert Free(first, '.') && SplitOnce(first, '@') == Some((user.value, name));
    } else {
      assert "" + name == name;
    }
  }

  /** What follows the front is read as a coordinate. */
  lemma {:induction false} FrontRead(library: Library, cache: Config.Cache, name: string,
      protocol: Option<ServerProtocol>, user: Option<string>, rest: string)
    requires IsNamed(name, protocol) && (user.Some? ==> name != "" && IsPlain(user.value)) && Free(rest, '?')
    requires name == "" ==> FirstPart(Split(rest, '/')[0], NOTHING) == NOTHING
    requires library.queryPairs("nostr://" + (Front(name, user) + rest)) == Some([])
    ensures var url := "nostr://" + (Front(name, user) + rest);
      Parsed(library, cache, url) == ReadCoordinate(library, cache, url, Split(rest, '/'), Options(protocol, user, []))
  {
    hide Parsed, ReadCoordinate, FirstPart, IsPlain, IsNamed, Split;
    if name == "" {
      FrontAbsent(library, cache, name, protocol, user, rest);
    } else {
      FrontPresent(library, cache, name, protocol, user, rest);
    }
  }

  lemma {:induction false} FrontAbsent(library: Library, cache: Config.Cache, name: string,
      protocol: Option<ServerProtocol>, user: Option<string>, rest: string)
    requires name == "" && IsNamed(name, protocol) && user.None? && Free(rest, '?')
    requires FirstPart(Split(rest, '/')[0], NOTHING) == NOTHING
    requires library.queryPairs("nostr://" + (Front(name, user) + rest)) == Some([])
    ensures var url := "nostr://" + (Front(name, user) + rest);
      Parsed(library, cache, url) == ReadCoordinate(library, cache, url, Split(rest, '/'), Options(protocol, user, []))
  {
    var body := Front(name, user) + rest;
    assert protocol.None? && body == rest;
    hide FirstPart, ReadCoordinate, Parsed, IsNamed, Split;
    PartsOfText(library, cache, "nostr://" + body, body);
  }

  lemma {:induction false} FrontPresent(library: Library, cache: Config.Cache, name: string,
      protocol: Option<ServerProtocol>, user: Option<string>, rest: string)
    requires name != "" && IsNamed(name, protocol) && (user.Some? ==> IsPlain(user.value)) && Free(rest, '?')
    requires library.queryPairs("nostr://" + (Front(name, user) + rest)) == Some([])
    ensures var url := "nostr://" + (Front(name, user) + rest);
      Parsed(library, cache, url) == ReadCoordinate(library, cache, url, Split(rest, '/'), Options(protocol, user, []))
  {
    var body := Front(name, user) + rest;
    var first := (if user.Some? then user.value + "@" else "") + name;
    assert body == first + "/" + rest;
    NamePlain(name, protocol);
    hide *;
    NamedRead(name, protocol, user);
    SplitFirst(first, '/', rest);
    NoQuery(first, rest);
    PartsOfText(library, cache, "nostr://" + body, body);
    assert ([first] + Split(rest, '/'))[1..] == Split(rest, '/');
  }

  lemma {:induction false} NoQuery(first: string, rest: string)
    requires Free(first, '?') && Free(rest, '?')
    ensures Free(first + "/" + rest, '?')
  {}

  /** Without a query there are no parameters. */
  lemma {:induction false} NoParameters(library: Library, name: string, protocol: Option<ServerProtocol>,
      user: Option<string>, rest: string)
    requires library.Valid() && IsNamed(name, protocol) && (user.Some? ==> IsPlain(user.value)) && Free(rest, '?')
    requires library.queryPairs("nostr://" + (Front(name, user) + rest)).Some?
    ensures library.queryPairs("nostr://" + (Front(name, user) + rest)) == Some([])
  {
    if name != "" {
      NamePlain(name, protocol);
    }
    hide IsNamed, Split, SplitOnce;
    assert Free("nostr://", '?') && Free(Front(name, user), '?');
    assert Free("nostr://" + (Front(name, user) + rest), '?');
  }

  /** A url that holds an event's address gives what the address stands for: an announcement's key, identifier and
      relays, with the user and protocol named before it; of any other event it is refused. What may follow the
      address is not read. */
  lemma {:induction false} AddressRead(library: Library, cache: Config.Cache, name: string,
      protocol: Option<ServerProtocol>, user: Option<string>, address: string, more: string)
    requires library.Valid() && IsNamed(name, protocol) && (user.Some? ==> name != "" && IsPlain(user.value))
    requires library.naddr(address).Some? && Free(address, '/') && Free(address + more, '?')
    requires more == "" || more[0] == '/'
    requires library.queryPairs("nostr://" + (Front(name, user) + (address + more))).Some?
    ensures var url, naddr := "nostr://" + (Front(name, user) + (address + more)), library.naddr(address).value;
      Parsed(library, cache, url) ==
        if naddr.isAnnouncement
        then Ok(NostrUrl(url, naddr.pubkey, naddr.identifier, naddr.relays, protocol, user, None))
        else Err(WrongKind)
  {
    NoParameters(library, name, protocol, user, address + more);
    AddressIsFirst(library, address, more);
    FrontRead(library, cache, name, protocol, user, address + more);
  }

  lemma {:induction false} AddressIsFirst(library: Library, address: string, more: string)
    requires library.Valid() && library.naddr(address).Some? && Free(address, '/') && (more == "" || more[0] == '/')
    ensures Split(address + more, '/')[0] == address && FirstPart(address, NOTHING) == NOTHING
  {
    if more == "" {
      SplitWhole(address, '/');
      assert address + more == address;
    } else {
      SplitFirst(address, '/', more[1..]);
      assert address + more == address + "/" + more[1..];
    }
    assert StartsWith(address, "naddr1");
    assert address[0] == 'n' && Free(address, '.') && Free(address, '@');
  }

  /** The text of a relay that a url may hold: without its scheme, and with nothing encoded. */
  predicate IsHintText(hint: string) {
    Free(hint, '%') && Free(hint, '/') && Free(hint, '?')
  }

  lemma {:induction false} NothingEncoded(s: string)
    requires Free(s, '%')
    ensures Decode(s) == Some(s)
  {
    if s != "" {
      NothingEncoded(s[1..]);
      assert [s[0]] + s[1..] == s;
    }
  }

  /** A relay without scheme is one of a secure websocket. */
  lemma {:induction false} HintMeans(library: Library, hint: string)
    requires IsHintText(hint)
    ensures ReadRelay(library, hint) == library.relay.parse("wss://" + hint)
  {
    NothingEncoded(hint);
    assert "ws://"[3] == '/' && "wss://"[4] == '/';
    StartsOtherwise(hint, "ws://", 3);
    StartsOtherwise(hint, "wss://", 4);
  }

  lemma {:induction false} StartsOtherwise(s: string, prefix: string, i: nat)
    requires i < |prefix| && Free(s, prefix[i])
    ensures !StartsWith(s, prefix)
  {
    assert |prefix| <= |s| ==> s[..|prefix|][i] in s;
  }

  /** The owner is not taken for a protocol or a user. */
  predicate IsOwnerText(owner: string) {
    && Free(owner, '/') && Free(owner, '?')
    && (!Free(owner, '.') || (Free(owner, '@') && owner !in ["ssh", "https", "http", "git"]))
  }

  /** What comes of an owner that is a key, an address in the cache, or one that is looked up. */
  function OwnedBy(library: Library, cache: Config.Cache, owner: string, relays: seq<RelayUrl>):
    Option<(PublicKey, seq<RelayUrl>, Option<string>)>
  {
    match library.npub.parse(owner)
    case Some(key) => Some((key, relays, None))
    case None =>
      if owner in cache then Some((cache[owner], relays, Some(owner)))
      else
        match library.profile(owner)
        case None => None
        case Some((key, more)) => Some((key, if relays == [] then more else relays, Some(owner)))
  }

  /** Any other url names its owner, then any relays, and last the identifier. */
  lemma {:induction false} OwnersUrlRead(library: Library, cache: Config.Cache, name: string,
      protocol: Option<ServerProtocol>, user: Option<string>, owner: string, hints: seq<string>,
      relays: seq<RelayUrl>, identifier: string)
    requires library.Valid() && IsNamed(name, protocol) && (user.Some? ==> name != "" && IsPlain(user.value))
    requires library.naddr(owner).None? && IsOwnerText(owner) && Free(identifier, '/') && Free(identifier, '?')
    requires HintsMean(library, hints, relays)
    requires library.queryPairs("nostr://" + (Front(name, user) + Join([owner] + hints + [identifier], '/'))).Some?
    ensures var url := "nostr://" + (Front(name, user) + Join([owner] + hints + [identifier], '/'));
      Parsed(library, cache, url) ==
        match OwnedBy(library, cache, owner, relays)
        case None => Err(UnknownAddress)
        case Some((key, known, nip05)) => Ok(NostrUrl(url, key, identifier, known, protocol, user, nip05))
  {
    var parts := [owner] + hints + [identifier];
    var url := "nostr://" + (Front(name, user) + Join(parts, '/'));
    OwnerTextFirst(owner);
    JoinFree(parts, '/', '?');
    NoParameters(library, name, protocol, user, Join(parts, '/'));
    SplitJoin(parts, '/');
    FrontRead(library, cache, name, protocol, user, Join(parts, '/'));
    HintTextsRead(library, hints, relays);
    assert parts[1..|parts| - 1] == hints && parts[|parts| - 1] == identifier;
    OwnedRead(library, cache, url, parts, relays, Options(protocol, user, []));
  }

  /** The texts are those of the relays, without their schemes. */
  ghost predicate HintsMean(library: Library, hints: seq<string>, relays: seq<RelayUrl>) {
    |relays| == |hints| && forall i | 0 <= i < |hints| ::
      IsHintText(hints[i]) && library.relay.parse("wss://" + hints[i]) == Some(relays[i])
  }

  lemma {:induction false} OwnerTextFirst(owner: string)
    requires IsOwnerText(owner)
    ensures FirstPart(owner, NOTHING) == NOTHING
  {}

  lemma {:induction false} OwnedRead(library: Library, cache: Config.Cache, url: string, parts: seq<string>,
      relays: seq<RelayUrl>, o: Options)
    requires |parts| > 1 && library.naddr(parts[0]).None? && o.relays == []
    requires ReadRelays(library, parts[1..|parts| - 1]) == Ok(relays)
    ensures ReadCoordinate(library, cache, url, parts, o) ==
      match OwnedBy(library, cache, parts[0], relays)
      case None => Err(UnknownAddress)
      case Some((key, known, nip05)) =>
        Ok(NostrUrl(url, key, parts[|parts| - 1], known, o.protocol, o.user, nip05))
  {
    assert [] + relays == relays;
  }

  lemma {:induction false} JoinFree(parts: seq<string>, d: char, c: char)
    requires c != d && forall p | p in parts :: Free(p, c)
    ensures Free(Join(parts, d), c)
  {
    if parts != [] {
      assert parts[0] in parts;
      JoinFree(parts[1..], d, c);
    }
  }

  lemma {:induction false} HintTextsRead(library: Library, hints: seq<string>, relays: seq<RelayUrl>)
    requires HintsMean(library, hints, relays)
    ensures ReadRelays(library, hints) == Ok(relays)
  {
    if hints != [] {
      var n := |hints| - 1;
      HintTextsRead(library, hints[..n], relays[..n]);
      HintMeans(library, hints[n]);
      assert relays[..n] + [relays[n]] == relays;
    }
  }

  // ---------------------------------------------------------------- what a round trip needs

  /** Reading the coordinate leaves the user and protocol as they are. */
  lemma {:induction false} CoordinateKeepsOptions(library: Library, cache: Config.Cache, url: string,
      parts: seq<string>, o: Options)
    ensures var r := ReadCoordinate(library, cache, url, parts, o); r.Ok? ==>
      r.value.protocol == o.protocol && r.value.user == o.user
  {}

  /** The owner, and without an event's address the identifier, are parts. */
  lemma {:induction false} CoordinateOfParts(library: Library, cache: Config.Cache, url: string, parts: seq<string>,
      o: Options)
    ensures var r := ReadCoordinate(library, cache, url, parts, o);
      && (r.Ok? ==> parts != [])
      && (r.Ok? && library.naddr(parts[0]).Some? ==>
            r.value.identifier == library.naddr(parts[0]).value.identifier && r.value.nip05.None?)
      && (r.Ok? && library.naddr(parts[0]).None? ==>
            && |parts| > 1 && r.value.identifier == parts[|parts| - 1]
            && r.value.nip05 == (if library.npub.parse(parts[0]).Some? then None else Some(parts[0])))
  {}

  /** How any url is read: as the coordinate of parts without separators. */
  lemma {:induction false} ParsedShape(library: Library, cache: Config.Cache, url: string)
    returns (parts: seq<string>, o: Options)
    requires Parsed(library, cache, url).Ok?
    ensures Parsed(library, cache, url) == ReadCoordinate(library, cache, url, parts, o)
    ensures forall i | 0 <= i < |parts| :: Free(parts[i], '/') && Free(parts[i], '?')
  {
    var cut := Split(url[8..], '?')[0];
    var all := Split(cut, '/');
    Piece(url[8..], '?', 0);
    forall i | 0 <= i < |all|
      ensures Free(all[i], '/') && Free(all[i], '?')
    {
      Piece(cut, '/', i);
    }
    o := QueryOptions(library, library.queryPairs(url).value).value;
    parts := all;
    if o.protocol.None? {
      o := FirstPart(all[0], o);
      parts := if o.protocol.Some? then all[1..] else all;
    }
  }

  /** Whatever is read as an address has no separator and is neither a key nor an event's address. */
  lemma {:induction false} AddressIsPart(library: Library, cache: Config.Cache, url: string)
    ensures var r := Parsed(library, cache, url);
      r.Ok? && r.value.nip05.Some? ==>
        && Free(r.value.nip05.value, '/') && Free(r.value.nip05.value, '?')
        && library.naddr(r.value.nip05.value).None? && library.npub.parse(r.value.nip05.value).None?
  {
    if Parsed(library, cache, url).Ok? {
      var parts, o := ParsedShape(library, cache, url);
      CoordinateOfParts(library, cache, url, parts, o);
    }
  }

  /** What is neither an event's address nor a key is taken for a nip05 address. */
  lemma {:induction false} StrangeOwner(library: Library, cache: Config.Cache, url: string, parts: seq<string>,
      o: Options)
    requires parts != [] && library.naddr(parts[0]).None? && library.npub.parse(parts[0]).None?
    ensures var r := ReadCoordinate(library, cache, url, parts, o); r.Ok? ==> r.value.nip05 == Some(parts[0])
  {}

  lemma {:induction false} FirstPartRead(part: string)
    requires Free(part, '/')
    ensures var o := FirstPart(part, NOTHING);
      && (o.protocol.Some? ==> IsWritten(o.protocol.value))
      && (o.user.Some? ==> Free(o.user.value, '.') && Free(o.user.value, '@') && Free(o.user.value, '/'))
  {
    ReadIsWritten(part);
    if SplitOnce(part, '@').Some? {
      ReadIsWritten(SplitOnce(part, '@').value.1);
    }
  }

  /** Whatever is read, the protocol is one that a url can name and the user is plain. */
  lemma {:induction false} PlainLoginRead(library: Library, cache: Config.Cache, u: NostrUrl)
    requires Unqueried(library, u) && HasAsciiRelays(library, u) && library.queryPairs(Printed(library, u)).Some?
    ensures var r := Parsed(library, cache, Printed(library, u));
      && (r.Ok? && r.value.protocol.Some? ==> IsWritten(r.value.protocol.value))
      && (r.Ok? && r.value.user.Some? ==>
            Free(r.value.user.value, '.') && Free(r.value.user.value, '@') && Free(r.value.user.value, '/'))
  {
    hide *;
    PartsOfBody(library, cache, u);
    var parts := Split(Body(library, u), '/');
    var first := FirstPart(parts[0], NOTHING);
    CoordinateKeepsOptions(library, cache, Printed(library, u),
      if first.protocol.Some? then parts[1..] else parts, first);
    Piece(Body(library, u), '/', 0);
    FirstPartRead(parts[0]);
  }

  lemma {:induction false} LoginAndOwner(library: Library, u: NostrUrl)
    requires Unqueried(library, u) && u.user.Some? && Free(u.user.value, '/')
    ensures var first := Login(u) + Owner(library, u);
      && Split(first, '/') == [first] && Some(first) != u.nip05
      && library.naddr(first).None? && library.npub.parse(first).None?
  {
    var first := Login(u) + Owner(library, u);
    OwnerFree(library, u);
    SplitWhole(first, '/');
    assert first[|u.user.value|] == '@';
    assert !Free(first, '@');
    assert |first| > |Owner(library, u)|;
  }

  /** A user printed without a protocol is taken for part of the owner. */
  lemma {:induction false} UserNeedsProtocol(library: Library, cache: Config.Cache, u: NostrUrl)
    requires Unqueried(library, u) && HasAsciiRelays(library, u) && library.queryPairs(Printed(library, u)).Some?
    requires u.user.Some? && u.protocol.None? && Free(u.user.value, '/')
    ensures var r := Parsed(library, cache, Printed(library, u)); r.Ok? && r.value.protocol.None? ==>
      r.value.nip05 != u.nip05
  {
    hide *;
    PartsOfBody(library, cache, u);
    BodyParts(library, u);
    LoginAndOwner(library, u);
    var parts := Split(Body(library, u), '/');
    var first := FirstPart(parts[0], NOTHING);
    CoordinateKeepsOptions(library, cache, Printed(library, u),
      if first.protocol.Some? then parts[1..] else parts, first);
    StrangeOwner(library, cache, Printed(library, u), parts, first);
  }

  /** A url that is read back has a login that can be read. */
  lemma {:induction false} LoginNeeded(library: Library, cache: Config.Cache, u: NostrUrl)
    requires Unqueried(library, u) && HasAsciiRelays(library, u) && library.queryPairs(Printed(library, u)).Some?
    requires Parsed(library, cache, Printed(library, u)) == Ok(u.(original := Printed(library, u)))
    ensures HasPlainLogin(u)
  {
    hide *;
    PlainLoginRead(library, cache, u);
    if u.user.Some? && u.protocol.None? {
      UserNeedsProtocol(library, cache, u);
    }
    LoginIsPlain(u);
  }

  lemma {:induction false} LoginIsPlain(u: NostrUrl)
    requires u.protocol.Some? ==> IsWritten(u.protocol.value)
    requires u.user.Some? ==>
      u.protocol.Some? && Free(u.user.value, '.') && Free(u.user.value, '@') && Free(u.user.value, '/')
    ensures HasPlainLogin(u)
  {}

  /** Without login and protocol, the owner was not taken for either. */
  lemma {:induction false} OwnerFirst(library: Library, cache: Config.Cache, u: NostrUrl)
    requires Unqueried(library, u) && HasAsciiRelays(library, u) && library.queryPairs(Printed(library, u)).Some?
    requires u.protocol.None? && u.user.None?
    requires Parsed(library, cache, Printed(library, u)) == Ok(u.(original := Printed(library, u)))
    ensures FirstPart(Owner(library, u), NOTHING) == NOTHING
  {
    PartsOfBody(library, cache, u);
    BodyParts(library, u);
    OwnerFree(library, u);
    SplitWhole(Owner(library, u), '/');
    assert Login(u) + Owner(library, u) == Owner(library, u);
    var parts := Split(Body(library, u), '/');
    var first := FirstPart(parts[0], NOTHING);
    hide *;
    CoordinateKeepsOptions(library, cache, Printed(library, u),
      if first.protocol.Some? then parts[1..] else parts, first);
    FirstPartKeepsRelays(parts[0]);
  }

  lemma {:induction false} FirstPartKeepsRelays(part: string)
    ensures FirstPart(part, NOTHING).relays == [] && NOTHING == Options(None, None, [])
  {}

  lemma {:induction false} OwnerPlainlyFirst(address: string)
    requires FirstPart(address, NOTHING) == NOTHING
    ensures !Free(address, '.') || (Free(address, '@') && ReadProtocol(address).None?)
  {}

  /** What is read once the owner is reached, if the identifier is one part. */
  lemma {:induction false} OwnerResolved(library: Library, cache: Config.Cache, url: string, u: NostrUrl,
      hints: seq<string>, o: Options)
    requires o.relays == [] && u.nip05.Some? && ReadRelays(library, hints) == Ok(FirstRelay(u))
    requires library.naddr(Owner(library, u)).None? && library.npub.parse(Owner(library, u)).None?
    ensures var r := ReadCoordinate(library, cache, url, [Owner(library, u)] + (hints + [u.identifier]), o);
      r.Ok? ==> Resolve(library, cache, u.nip05.value, FirstRelay(u)) == Ok((r.value.pubkey, r.value.relays))
  {
    var parts := [Owner(library, u)] + (hints + [u.identifier]);
    assert parts[1..|parts| - 1] == hints && parts[|parts| - 1] == u.identifier;
    assert [] + FirstRelay(u) == FirstRelay(u);
  }

  /** A relay that is read once the owner is reached is read from the hint. */
  lemma {:induction false} RelayRead(library: Library, cache: Config.Cache, url: string, u: NostrUrl, o: Options)
    requires o.relays == [] && HasAsciiRelays(library, u) && library.naddr(Owner(library, u)).None?
    ensures var parts := [Owner(library, u)] + (HintParts(library, u) + [u.identifier]);
      var r := ReadCoordinate(library, cache, url, parts, o);
      r.Ok? && r.value.relays == u.relays ==> HasReadableRelay(library, u)
  {
    if u.relays != [] {
      var hint := RelayHint(library, u.relays[0]);
      var parts := [Owner(library, u)] + ([hint] + [u.identifier]);
      assert parts[1..|parts| - 1] == [hint] && [hint][..0] == [];
      assert ReadRelays(library, []) == Ok([]);
      if ReadRelay(library, hint).Some? {
        var relay := ReadRelay(library, hint).value;
        assert [] + [relay] == [relay];
        assert ReadRelays(library, [hint]) == Ok([relay]);
      }
    }
  }

  lemma {:induction false} ResolvedRelays(library: Library, cache: Config.Cache, u: NostrUrl)
    requires u.nip05.Some? && Resolve(library, cache, u.nip05.value, FirstRelay(u)) == Ok((u.pubkey, u.relays))
    ensures u.relays == FirstRelay(u) || FirstRelay(u) == []
    ensures Resolve(library, cache, u.nip05.value, FirstRelay(u)) == Ok((u.pubkey, FirstRelay(u)))
  {}

  /** What is read as the identifier is the last part. */
  lemma {:induction false} IdentifierIsPart(library: Library, cache: Config.Cache, u: NostrUrl)
    requires Unqueried(library, u) && library.queryPairs(Printed(library, u)).Some?
    requires HasPlainLogin(u) && (u.protocol.None? ==> FirstPart(Owner(library, u), NOTHING) == NOTHING)
    requires HasAsciiRelays(library, u) && library.naddr(Owner(library, u)).None?
    ensures var r := Parsed(library, cache, Printed(library, u)); r.Ok? ==> Free(r.value.identifier, '/')
  {
    hide *;
    OwnerReached(library, cache, u);
    var last := |Split(u.identifier, '/')| - 1;
    Piece(u.identifier, '/', last);
    var parts := [Owner(library, u)] + (HintParts(library, u) + Split(u.identifier, '/'));
    CoordinateOfParts(library, cache, Printed(library, u), parts, Options(u.protocol, u.user, []));
    assert parts[|parts| - 1] == Split(u.identifier, '/')[last];
  }

  /** A url that is read back has an address and a relay that can be read, and no slash in its identifier. */
  lemma {:induction false} AddressNeeded(library: Library, cache: Config.Cache, u: NostrUrl)
    requires Unqueried(library, u) && HasAsciiRelays(library, u) && library.queryPairs(Printed(library, u)).Some?
    requires library.Valid() && HasPlainLogin(u) && (u.protocol.None? ==> u.user.None?)
    requires Parsed(library, cache, Printed(library, u)) == Ok(u.(original := Printed(library, u)))
    ensures HasReadableAddress(library, cache, u) && HasReadableRelay(library, u) && Free(u.identifier, '/')
  {
    hide *;
    if u.protocol.None? {
      OwnerFirst(library, cache, u);
    }
    AddressIsPart(library, cache, Printed(library, u));
    OwnerIs(library, u);
    if u.nip05.None? {
      KeyIsNoNaddr(library, u.pubkey);
    }
    IdentifierIsPart(library, cache, u);
    OwnerReached(library, cache, u);
    SplitWhole(u.identifier, '/');
    RelayRead(library, cache, Printed(library, u), u, Options(u.protocol, u.user, []));
    if u.nip05.Some? {
      HintsRead(library, u);
      OwnerResolved(library, cache, Printed(library, u), u, HintParts(library, u), Options(u.protocol, u.user, []));
      ResolvedRelays(library, cache, u);
      if u.protocol.None? {
        OwnerPlainlyFirst(u.nip05.value);
      }
    }
    AddressIsReadable(library, cache, u);
  }

  lemma {:induction false} OwnerIs(library: Library, u: NostrUrl)
    ensures Owner(library, u) == if u.nip05.Some? then u.nip05.value else library.npub.show(u.pubkey)
  {}

  lemma {:induction false} AddressIsReadable(library: Library, cache: Config.Cache, u: NostrUrl)
    requires u.nip05.Some? ==>
      var address := u.nip05.value;
      && Free(address, '/') && Free(address, '?') && library.naddr(address).None? && library.npub.parse(address).None?
      && Resolve(library, cache, address, FirstRelay(u)) == Ok((u.pubkey, FirstRelay(u)))
      && (u.protocol.None? ==> !Free(address, '.') || (Free(address, '@') && ReadProtocol(address).None?))
    ensures HasReadableAddress(library, cache, u)
  {}

  // ---------------------------------------------------------------- a question mark in the identifier

  function Extents(o: Options): nat {
    (if o.user.Some? then 4 + |o.user.value| else 0) +
    (if o.protocol.Some? then 8 + |Config.Show(o.protocol.value)| else 0)
  }

  /** A user and a protocol that the query gives are part of it. */
  lemma {:induction false} QueryWeight(library: Library, pairs: seq<(string, string)>)
    ensures QueryOptions(library, pairs).Ok? ==> Extents(QueryOptions(library, pairs).value) <= Weight(pairs)
  {
    if pairs != [] {
      hide Extents, WithPair;
      var front := QueryOptions(library, pairs[..|pairs| - 1]);
      QueryWeight(library, pairs[..|pairs| - 1]);
      if front.Ok? {
        PairExtent(library, front.value, pairs[|pairs| - 1]);
      }
    } else {
      assert Extents(NOTHING) == 0;
    }
  }

  lemma {:induction false} PairExtent(library: Library, o: Options, pair: (string, string))
    ensures WithPair(library, o, pair).Ok? ==>
      Extents(WithPair(library, o, pair).value) <= Extents(o) + |pair.0| + |pair.1|
  {
    assert |"user"| == 4 && |"protocol"| == 8;
    ShownIsText(pair.1);
  }

  lemma {:induction false} ShownIsText(s: string)
    ensures ReadProtocol(s).Some? ==> Config.Show(ReadProtocol(s).value) == s
  {}

  /** Of a login and what follows it, the pieces hold an `@` or are pieces of the user. */
  lemma {:induction false} LoginPieces(user: string, rest: string, i: nat)
    requires Free(rest, '/') && i < |Split(user + "@" + rest, '/')|
    ensures !Free(Split(user + "@" + rest, '/')[i], '@') || |Split(user + "@" + rest, '/')[i]| <= |user|
    decreases |user|
  {
    match SplitOnce(user, '/')
    case None =>
      SplitWhole(user + "@" + rest, '/');
      assert (user + "@" + rest)[|user|] == '@';
    case Some((before, after)) =>
      assert user + "@" + rest == before + "/" + (after + "@" + rest);
      SplitFirst(before, '/', after + "@" + rest);
      if i > 0 {
        LoginPieces(after, rest, i - 1);
      }
  }

  lemma {:induction false} Moved(a: string, b: string, c: string, d: string, e: string, f: string)
    ensures a + (b + (c + "/" + (d + (e + "?" + f)))) == (a + (b + (c + "/" + (d + e)))) + "?" + f
  {}

  /** What is cut off at the first question mark leaves the same url with a shorter identifier. */
  lemma {:induction false} CutIdentifier(library: Library, u: NostrUrl, before: string, after: string)
    requires HasAsciiRelays(library, u) && u.identifier == before + "?" + after
    requires Unqueried(library, u.(identifier := before)) && u.original == ""
    ensures var cut := Body(library, u.(identifier := before));
      && Printed(library, u) == "nostr://" + (cut + "?" + after)
      && Split(cut + "?" + after, '?')[0] == cut && QueryLength(Printed(library, u)) == |after|
  {
    var cut := Body(library, u.(identifier := before));
    BodyFree(library, u.(identifier := before));
    Moved(Login(u), Scheme(u), Owner(library, u), Hint(library, u), before, after);
    assert Printed(library, u) == "nostr://" + (cut + "?" + after);
    CutText(cut, after);
  }

  lemma {:induction false} CutText(cut: string, after: string)
    requires Free(cut, '?')
    ensures Split(cut + "?" + after, '?')[0] == cut && QueryLength("nostr://" + (cut + "?" + after)) == |after|
  {
    SplitFirst(cut, '?', after);
    assert "nostr://" + (cut + "?" + after) == ("nostr://" + cut) + "?" + after;
    Config.SplitOnceFirst("nostr://" + cut, '?', after);
  }

  /** The part that is taken for the owner: the first, or the second if the first gave the protocol. */
  function OwnerPart(parts: seq<string>, o: Options): Option<string>
    requires parts != []
  {
    if o.protocol.Some? || FirstPart(parts[0], o).protocol.None? then Some(parts[0])
    else if |parts| > 1 then Some(parts[1]) else None
  }

  /** A part in the owner's place that is an event's address is a piece of the user. */
  lemma {:induction false} NaddrIsOfUser(library: Library, u: NostrUrl, o: Options)
    requires Unqueried(library, u) && u.nip05.None?
    ensures var parts := Split(Body(library, u), '/');
      var owner := OwnerPart(parts, o);
      owner.Some? && library.naddr(owner.value).Some? ==>
        && u.user.Some? && |owner.value| <= |u.user.value|
        && !(Free(u.user.value, '/') && Free(u.user.value, '@'))
  {
    var parts := Split(Body(library, u), '/');
    var key := library.npub.show(u.pubkey);
    BodyParts(library, u);
    OwnerFree(library, u);
    KeyIsNoNaddr(library, u.pubkey);
    var rest := if u.protocol.Some? then Config.Show(u.protocol.value) else key;
    RestPlain(library, u);
    if u.user.None? {
      assert Login(u) + rest == rest;
      SplitWhole(rest, '/');
      NoLogin(library, u, rest, o);
    } else {
      assert Login(u) + rest == u.user.value + "@" + rest;
      WithLogin(library, u, u.user.value, rest, parts, o);
    }
  }

  lemma {:induction false} RestPlain(library: Library, u: NostrUrl)
    requires library.Valid()
    ensures var rest := if u.protocol.Some? then Config.Show(u.protocol.value) else library.npub.show(u.pubkey);
      IsPlain(rest) && library.naddr(rest).None? && (u.protocol.None? ==> ReadProtocol(rest).None?)
  {
    if u.protocol.Some? {
      ShownPlain(u.protocol.value);
      ShownNoNaddr(library, u.protocol.value);
    } else {
      KeyIsNoNaddr(library, u.pubkey);
      ReadIsWritten(library.npub.show(u.pubkey));
    }
  }

  lemma {:induction false} ShownNoNaddr(library: Library, p: ServerProtocol)
    requires library.Valid()
    ensures library.naddr(Config.Show(p)).None?
  {
    var s := Config.Show(p);
    assert "naddr1"[0] == 'n';
    assert s[0] != 'n';
  }

  lemma {:induction false} NoLogin(library: Library, u: NostrUrl, rest: string, o: Options)
    requires IsPlain(rest) && library.naddr(rest).None? && (u.protocol.None? ==> ReadProtocol(rest).None?)
    requires library.naddr(library.npub.show(u.pubkey)).None?
    requires HasAsciiRelays(library, u) && u.nip05.None?
    requires var tail := HintParts(library, u) + Split(u.identifier, '/');
      Split(Body(library, u), '/') ==
        if u.protocol.Some? then [rest] + ([Owner(library, u)] + tail) else [rest] + tail
    ensures var owner := OwnerPart(Split(Body(library, u), '/'), o); owner.Some? ==> library.naddr(owner.value).None?
  {}

  lemma {:induction false} WithLogin(library: Library, u: NostrUrl, user: string, rest: string, parts: seq<string>,
      o: Options)
    requires library.Valid() && IsPlain(rest) && (u.protocol.None? ==> ReadProtocol(rest).None?)
    requires HasAsciiRelays(library, u) && u.nip05.None? && library.naddr(library.npub.show(u.pubkey)).None?
    requires var tail := HintParts(library, u) + Split(u.identifier, '/');
      parts == if u.protocol.Some? then Split(user + "@" + rest, '/') + ([Owner(library, u)] + tail)
               else Split(user + "@" + rest, '/') + tail
    ensures var owner := OwnerPart(parts, o);
      owner.Some? && library.naddr(owner.value).Some? ==>
        |owner.value| <= |user| && !(Free(user, '/') && Free(user, '@'))
  {
    var pieces := Split(user + "@" + rest, '/');
    LoginPieces(user, rest, 0);
    assert parts[0] == pieces[0];
    if |pieces| > 1 {
      LoginPieces(user, rest, 1);
      assert parts[1] == pieces[1];
      if Free(user, '/') {
        SplitWhole(user + "@" + rest, '/');
        assert false;
      }
    } else {
      OnePieceUser(user, rest);
      assert u.protocol.Some? ==> parts[1] == Owner(library, u);
      if u.protocol.None? {
        LoginIsNoProtocol(user, rest, o);
      }
    }
  }

  lemma {:induction false} OnePieceUser(user: string, rest: string)
    requires |Split(user + "@" + rest, '/')| == 1
    ensures Split(user + "@" + rest, '/') == [user + "@" + rest]
  {
    var s := user + "@" + rest;
    match SplitOnce(s, '/')
    case None => SplitWhole(s, '/');
    case Some((before, after)) => SplitFirst(before, '/', after);
  }

  lemma {:induction false} LoneSeparator(a: string, b: string, c: string, d: string, sep: char)
    requires Free(c, sep) && Free(d, sep)
    requires a + [sep] + b == c + [sep] + d
    ensures a == c && b == d
  {
    var s := c + [sep] + d;
    forall i | 0 <= i < |s| && i != |c| ensures s[i] != sep {}
    assert (a + [sep] + b)[|a|] == sep;
    assert a == s[..|a|] && b == s[|a| + 1..] && c == s[..|c|] && d == s[|c| + 1..];
  }

  lemma {:induction false} LoginIsNoProtocol(user: string, rest: string, o: Options)
    requires Free(rest, '@') && ReadProtocol(rest).None?
    ensures FirstPart(user + "@" + rest, o).protocol.None?
  {
    var part := user + "@" + rest;
    assert part[|user|] == '@';
    ReadIsWritten(part);
    ReadHasNoAt(part);
    match SplitOnce(part, '@')
    case None =>
    case Some((before, after)) =>
      ReadHasNoAt(after);
      if Free(after, '@') {
        LoneSeparator(user, rest, before, after, '@');
      }
  }

  lemma {:induction false} ReadHasNoAt(s: string)
    ensures ReadProtocol(s).Some? ==> Free(s, '@')
  {}

  lemma {:induction false} FirstPartUser(part: string, o: Options)
    requires Free(part, '/')
    ensures FirstPart(part, o).user == o.user || (FirstPart(part, o).user.Some? &&
      Free(FirstPart(part, o).user.value, '/') && Free(FirstPart(part, o).user.value, '@'))
  {}

  /** An identifier with a question mark can only come from an event's address in the owner's place. */
  lemma {:induction false} NaddrRead(library: Library, cache: Config.Cache, u: NostrUrl, url: string, cut: string)
    requires StartsWith(url, "nostr://") && Split(url[8..], '?')[0] == cut && Free(cut, '?') &&
      library.queryPairs(url).Some?
    requires Parsed(library, cache, url) == Ok(u.(original := url)) && !Free(u.identifier, '?')
    ensures QueryOptions(library, library.queryPairs(url).value).Ok?
    ensures var parts, o := Split(cut, '/'), QueryOptions(library, library.queryPairs(url).value).value;
      var owner := OwnerPart(parts, o);
      && owner.Some? && library.naddr(owner.value).Some? && u.nip05.None?
      && library.naddr(owner.value).value.identifier == u.identifier
      && u.user == (if o.protocol.Some? then o.user else FirstPart(parts[0], o).user)
  {
    var parts, o := Split(cut, '/'), QueryOptions(library, library.queryPairs(url).value).value;
    var o' := if o.protocol.Some? then o else FirstPart(parts[0], o);
    var rest := if o.protocol.Some? || o'.protocol.None? then parts else parts[1..];
    assert Parsed(library, cache, url) == ReadCoordinate(library, cache, url, rest, o');
    CoordinateOfParts(library, cache, url, rest, o');
    CoordinateKeepsOptions(library, cache, url, rest, o');
    assert parts[|parts| - 1] == rest[|rest| - 1];
    Piece(cut, '/', |parts| - 1);
  }

  /** An identifier with a question mark is never read back. */
  lemma {:induction false} QuestionMarkLost(library: Library, cache: Config.Cache, u: NostrUrl, before: string,
      after: string)
    requires Unqueried(library, u.(identifier := before)) && HasAsciiRelays(library, u) && u.original == ""
    requires u.identifier == before + "?" + after && library.queryPairs(Printed(library, u)).Some?
    requires Weight(library.queryPairs(Printed(library, u)).value) <= QueryLength(Printed(library, u))
    requires forall s :: library.naddr(s).Some? ==> |library.naddr(s).value.identifier| < |s|
    ensures Parsed(library, cache, Printed(library, u)) != Ok(u.(original := Printed(library, u)))
  {
    var url, u' := Printed(library, u), u.(identifier := before);
    var cut := Body(library, u');
    CutIdentifier(library, u, before, after);
    BodyFree(library, u');
    if Parsed(library, cache, url) == Ok(u.(original := url)) {
      assert url[8..] == cut + "?" + after && u.identifier[|before|] == '?';
      NaddrRead(library, cache, u, url, cut);
      var parts, o := Split(cut, '/'), QueryOptions(library, library.queryPairs(url).value).value;
      QueryWeight(library, library.queryPairs(url).value);
      NaddrIsOfUser(library, u', o);
      Piece(cut, '/', 0);
      FirstPartUser(parts[0], o);
    }
  }

  /** A question mark in a user that is read can only come from the query. */
  lemma {:induction false} QueriedUser(library: Library, cache: Config.Cache, url: string)
    requires Parsed(library, cache, url).Ok?
    requires var user := Parsed(library, cache, url).value.user; user.Some? && !Free(user.value, '?')
    ensures var o := QueryOptions(library, library.queryPairs(url).value);
      o.Ok? && o.value.user == Parsed(library, cache, url).value.user
  {
    var o := QueryOptions(library, library.queryPairs(url).value).value;
    var parts := Split(Split(url[8..], '?')[0], '/');
    var o' := if o.protocol.Some? then o else FirstPart(parts[0], o);
    CoordinateKeepsOptions(library, cache, url,
      if o.protocol.Some? || o'.protocol.None? then parts else parts[1..], o');
    Piece(url[8..], '?', 0);
    Piece(Split(url[8..], '?')[0], '/', 0);
    FirstPartUnqueried(parts[0], o);
  }

  lemma {:induction false} FirstPartUnqueried(part: string, o: Options)
    requires Free(part, '?')
    ensures FirstPart(part, o).user == o.user ||
      (FirstPart(part, o).user.Some? && Free(FirstPart(part, o).user.value, '?'))
  {}

  /** The pieces and the delimiters between them make up the text. */
  function Extent(parts: seq<string>): nat {
    if parts == [] then 0 else |parts[0]| + 1 + Extent(parts[1..])
  }

  lemma {:induction false} SplitExtent(s: string, d: char)
    ensures Extent(Split(s, d)) == |s| + 1
    decreases |s|
  {
    match SplitOnce(s, d)
    case None => SplitWhole(s, d);
    case Some((before, after)) =>
      SplitFirst(before, d, after);
      SplitExtent(after, d);
      assert ([before] + Split(after, d))[1..] == Split(after, d);
  }

  lemma {:induction false} EndsExtent(parts: seq<string>)
    requires parts != []
    ensures |parts[|parts| - 1]| + 1 <= Extent(parts)
    ensures |parts| > 1 ==> |parts[0]| + 1 + |parts[|parts| - 1]| + 1 <= Extent(parts)
  {
    if |parts| > 1 {
      EndsExtent(parts[1..]);
    }
  }

  /** What is read as a coordinate holds at least the printed owner and identifier. */
  lemma {:induction false} CoordinateExtent(library: Library, cache: Config.Cache, url: string, parts: seq<string>,
      o: Options)
    requires library.Valid() && ReadCoordinate(library, cache, url, parts, o).Ok?
    ensures var u := ReadCoordinate(library, cache, url, parts, o).value;
      |Owner(library, u)| + 1 + |u.identifier| + 1 <= Extent(parts)
  {
    EndsExtent(parts);
    CoordinateOfParts(library, cache, url, parts, o);
  }

  lemma {:induction false} ShownIsRead(part: string, o: Options)
    requires o.protocol.None? && FirstPart(part, o).protocol.Some?
    ensures |Config.Show(FirstPart(part, o).protocol.value)| <= |part|
  {}

  /** Text of which the first piece may give the protocol, unless the query does, holds the printed rest of the url,
      without its relay, or the query holds the protocol. */
  lemma {:induction false} TextExtent(library: Library, cache: Config.Cache, url: string)
    requires library.Valid() && Parsed(library, cache, url).Ok?
    ensures QueryOptions(library, library.queryPairs(url).value).Ok?
    ensures var u, cut := Parsed(library, cache, url).value, Split(url[8..], '?')[0];
      var o := QueryOptions(library, library.queryPairs(url).value).value;
      && |Owner(library, u)| + 1 + |u.identifier| <= |cut|
      && (o.protocol.Some? ==> o.protocol == u.protocol)
      && (o.protocol.None? ==> |Scheme(u)| + |Owner(library, u)| + 1 + |u.identifier| <= |cut|)
  {
    var cut := Split(url[8..], '?')[0];
    var parts, o := Split(cut, '/'), QueryOptions(library, library.queryPairs(url).value).value;
    var o' := if o.protocol.Some? then o else FirstPart(parts[0], o);
    var rest := if o.protocol.Some? || o'.protocol.None? then parts else parts[1..];
    assert Parsed(library, cache, url) == ReadCoordinate(library, cache, url, rest, o');
    CoordinateExtent(library, cache, url, rest, o');
    CoordinateKeepsOptions(library, cache, url, rest, o');
    SplitExtent(cut, '/');
    if o.protocol.None? && o'.protocol.Some? {
      ShownIsRead(parts[0], o);
    }
  }

  /** A url without a relay, and with a user that holds a question mark, is never read back: the query that it opens
      would have to name that user, and is too short to. */
  lemma {:induction false} AskingUserLost(library: Library, cache: Config.Cache, u: NostrUrl)
    requires library.Valid() && u.original == "" && u.relays == [] && !Unasked(u)
    requires library.queryPairs(Printed(library, u)).Some?
    ensures Parsed(library, cache, Printed(library, u)) != Ok(u.(original := Printed(library, u)))
  {
    var url := Printed(library, u);
    if Parsed(library, cache, url) == Ok(u.(original := url)) {
      var before, after := AskingUser(u);
      hide *;
      CutUser(library, u, before, after, Scheme(u) + (Owner(library, u) + "/" + u.identifier));
      QueriedUser(library, cache, url);
      TextExtent(library, cache, url);
      QueryBound(library, url);
      SameOwner(library, u, url);
      var o := QueryOptions(library, library.queryPairs(url).value).value;
      ExtentsOf(o);
    }
  }

  lemma {:induction false} AskingUser(u: NostrUrl) returns (before: string, after: string)
    requires !Unasked(u)
    ensures u.user == Some(before + "?" + after) && Free(before, '?') && !Free(u.user.value, '?')
  {
    var pieces := SplitOnce(u.user.value, '?').value;
    before, after := pieces.0, pieces.1;
  }

  lemma {:induction false} ExtentsOf(o: Options)
    ensures o.user.Some? ==> 4 + |o.user.value| <= Extents(o)
    ensures o.user.Some? && o.protocol.Some? ==>
      12 + |o.user.value| + |Config.Show(o.protocol.value)| <= Extents(o)
  {}

  lemma {:induction false} QueryBound(library: Library, url: string)
    requires library.Valid() && library.queryPairs(url).Some?
    ensures var pairs := library.queryPairs(url).value;
      QueryOptions(library, pairs).Ok? ==> Extents(QueryOptions(library, pairs).value) <= QueryLength(url)
  {
    QueryWeight(library, library.queryPairs(url).value);
  }

  lemma {:induction false} SameOwner(library: Library, u: NostrUrl, url: string)
    ensures Owner(library, u.(original := url)) == Owner(library, u) && Scheme(u.(original := url)) == Scheme(u)
    ensures u.protocol.Some? ==> |Scheme(u)| == |Config.Show(u.protocol.value)| + 1
    ensures u.protocol.None? ==> |Scheme(u)| == 0
  {}

  lemma {:induction false} CutUser(library: Library, u: NostrUrl, before: string, after: string, rest: string)
    requires u.original == "" && u.relays == [] && Free(before, '?')
    requires u.user == Some(before + "?" + after)
    requires rest == Scheme(u) + (Owner(library, u) + "/" + u.identifier)
    ensures var url := Printed(library, u);
      && |url| >= 8 && Split(url[8..], '?')[0] == before && QueryLength(url) == |after| + 1 + |rest|
  {
    assert "" + u.identifier == u.identifier;
    assert Printed(library, u) == "nostr://" + (before + "?" + (after + "@" + rest));
    CutText(before, after + "@" + rest);
    assert Printed(library, u)[8..] == before + "?" + (after + "@" + rest);
  }

  // ---------------------------------------------------------------- the round trip

  lemma {:induction false} OneRelay(u: NostrUrl)
    ensures u.relays == FirstRelay(u) <==> |u.relays| <= 1
  {}

  /** Without question marks. */
  lemma {:induction false} UnqueriedRoundTrip(library: Library, cache: Config.Cache, u: NostrUrl)
    requires library.Valid() && Unqueried(library, u) && HasAsciiRelays(library, u) &&
      library.queryPairs(Printed(library, u)).Some?
    ensures Parsed(library, cache, Printed(library, u)) == Ok(u.(original := Printed(library, u)))
       <==> (|u.relays| <= 1 && Free(u.identifier, '/') && HasPlainLogin(u) && HasReadableAddress(library, cache, u)
             && HasReadableRelay(library, u))
  {
    hide *;
    if Parsed(library, cache, Printed(library, u)) == Ok(u.(original := Printed(library, u))) {
      LoginNeeded(library, cache, u);
      PlainLoginHasProtocol(u);
      AddressNeeded(library, cache, u);
    }
    if HasPlainLogin(u) && HasReadableAddress(library, cache, u) && HasReadableRelay(library, u)
      && Free(u.identifier, '/')
    {
      ReadBack(library, cache, u);
      OneRelay(u);
      Unprinted(library, u);
    }
  }

  lemma {:induction false} PlainLoginHasProtocol(u: NostrUrl)
    requires HasPlainLogin(u)
    ensures u.protocol.None? ==> u.user.None?
  {}

  lemma {:induction false} Unprinted(library: Library, u: NostrUrl)
    requires Unqueried(library, u)
    ensures u.original == ""
  {}

  /** With one, it is lost. */
  lemma {:induction false} QueriedIsLost(library: Library, cache: Config.Cache, u: NostrUrl)
    requires Printable(library, u) && HasAsciiRelays(library, u) && library.queryPairs(Printed(library, u)).Some?
    requires !Unqueried(library, u)
    ensures Parsed(library, cache, Printed(library, u)) != Ok(u.(original := Printed(library, u)))
  {
    AddressIsPart(library, cache, Printed(library, u));
    if u.nip05.None? || (Free(u.nip05.value, '/') && Free(u.nip05.value, '?')) {
      var (before, after) := SplitOnce(u.identifier, '?').value;
      QuestionMarkLost(library, cache, u, before, after);
    }
  }

  /** The library takes it for a url; it has at most one relay, which its hint gives back; no slash or question mark in
      its identifier; no protocol that a url cannot name; a user only with a protocol and without `.`, `@`, `/` and `?`;
      and an address, if any, that is read as one and resolves to its key. */
  predicate Restorable(library: Library, cache: Config.Cache, u: NostrUrl)
    requires HasAsciiRelays(library, u)
  {
    && library.queryPairs(Printed(library, u)).Some?
    && |u.relays| <= 1 && HasReadableRelay(library, u)
    && Free(u.identifier, '/') && Free(u.identifier, '?') && Unasked(u)
    && HasPlainLogin(u) && HasReadableAddress(library, cache, u)
  }

  /** Parsing what was printed gives the url back if and only if it is restorable. */
  lemma {:induction false} UrlRoundTrip(library: Library, cache: Config.Cache, u: NostrUrl)
    requires library.Valid() && u.original == "" && (u.relays != [] ==> Unasked(u))
    ensures HasAsciiRelays(library, u)
    ensures Parsed(library, cache, Printed(library, u)) == Ok(u.(original := Printed(library, u)))
       <==> Restorable(library, cache, u)
  {
    if library.queryPairs(Printed(library, u)).None? {
      assert Parsed(library, cache, Printed(library, u)).Err?;
    } else if !Unasked(u) {
      AskingUserLost(library, cache, u);
    } else if Unqueried(library, u) {
      UnqueriedRoundTrip(library, cache, u);
    } else {
      QueriedIsLost(library, cache, u);
    }
  }

  method PrintFront(u: NostrUrl) returns (s: string)
    ensures s == "nostr://" + Login(u) + Scheme(u)
  {
    s := "nostr://";
    if u.user.Some? {
      s := s + (u.user.value + "@");
    }
    ghost var front := s;
    assert front == "nostr://" + Login(u);
    if u.protocol.Some? {
      s := s + (Config.Show(u.protocol.value) + "/");
    }
    assert front + "" == front;
  }

  lemma {:induction false} Appended(a: string, b: string, c: string, d: string, e: string, f: string)
    ensures a + b + c + d + e + f == a + (b + (c + (d + (e + f))))
  {}

  /** `Display for NostrUrlDecoded`: only the first relay is given. What it writes is parsed back, whatever is cached,
      if and only if it is restorable. */
  method Print(library: Library, u: NostrUrl) returns (s: string)
    requires HasAsciiRelays(library, u)
    ensures s == Printed(library, u)
    ensures library.Valid() && u.original == "" && (u.relays != [] ==> Unasked(u)) ==> forall cache ::
      Parsed(library, cache, s) == Ok(u.(original := s)) <==> Restorable(library, cache, u)
  {
    if u.original != "" {
      return u.original;
    }
    s := PrintFront(u);
    if u.nip05.Some? {
      s := s + (u.nip05.value + "/");
    } else {
      s := s + (library.npub.show(u.pubkey) + "/");
    }
    ghost var front := s;
    if u.relays != [] {
      s := s + (RelayHint(library, u.relays[0]) + "/");
    }
    assert front + "" == front;
    assert s == front + Hint(library, u);
    s := s + u.identifier;
    Appended("nostr://", Login(u), Scheme(u), Owner(library, u) + "/", Hint(library, u), u.identifier);
    forall cache | library.Valid() && u.original == "" && (u.relays != [] ==> Unasked(u))
      ensures Parsed(library, cache, s) == Ok(u.(original := s)) <==> Restorable(library, cache, u)
    {
      UrlRoundTrip(library, cache, u);
    }
  }
}
