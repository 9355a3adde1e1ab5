/** Texts of values whose printers and parsers lie in libraries: keys and relay addresses. */
module Codecs {
  import opened Wrappers
  import opened Text

  type RelayUrl = string

  /** How values are printed and parsed. */
  datatype Codec<!T(!new)> = Codec(show: T -> string, parse: string -> Option<T>) {
    /** What is printed is read back. */
    ghost predicate Valid() {
      forall x :: parse(show(x)) == Some(x)
    }
  }

  /** Keys are printed as hex digits. */
  ghost predicate IsHexCodec(keys: Codec<string>) {
    keys.Valid() && forall k :: IsHex(keys.show(k))
  }

  function ShowAll<T(!new)>(codec: Codec<T>, xs: seq<T>): (r: seq<string>)
    ensures |r| == |xs| && forall i | 0 <= i < |xs| :: r[i] == codec.show(xs[i])
  {
    if xs == [] then [] else [codec.show(xs[0])] + ShowAll(codec, xs[1..])
  }

  /** What can be parsed of the texts, in order. */
  function ParseAll<T(!new)>(codec: Codec<T>, texts: seq<string>): seq<T> {
    if texts == [] then []
    else (if codec.parse(texts[0]).Some? then [codec.parse(texts[0]).value] else []) + ParseAll(codec, texts[1..])
  }

  lemma {:induction false} ParseAllShown<T(!new)>(codec: Codec<T>, xs: seq<T>)
    requires codec.Valid()
    ensures ParseAll(codec, ShowAll(codec, xs)) == xs
  {
    if xs != [] {
      ParseAllShown(codec, xs[1..]);
      assert ShowAll(codec, xs)[1..] == ShowAll(codec, xs[1..]);
      assert [xs[0]] + xs[1..] == xs;
    }
  }

  /** Different values are printed differently. */
  lemma {:induction false} ShownIn<T(!new)>(codec: Codec<T>, xs: seq<T>, x: T)
    requires codec.Valid()
    ensures codec.show(x) in ShowAll(codec, xs) <==> x in xs
  {
    if codec.show(x) in ShowAll(codec, xs) {
      var i :| 0 <= i < |xs| && ShowAll(codec, xs)[i] == codec.show(x);
      assert codec.parse(codec.show(xs[i])) == codec.parse(codec.show(x));
    }
    if x in xs {
      var i :| 0 <= i < |xs| && xs[i] == x;
      assert ShowAll(codec, xs)[i] == codec.show(x);
    }
  }
}
