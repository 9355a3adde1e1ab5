/** The string operations of the source that the other modules share. */
module Text {
  import opened Wrappers

  predicate StartsWith(s: string, prefix: string) {
    prefix <= s
  }

  /** `str::contains` */
  predicate Contains(s: string, sub: string) {
    StartsWith(s, sub) || (s != [] && Contains(s[1..], sub))
  }

  predicate Free(s: string, c: char) {
    c !in s
  }

  /** `str::split` on a character: always at least one piece. */
  function Split(s: string, d: char): (parts: seq<string>)
    ensures parts != []
  {
    if s == [] then [""]
    else if s[0] == d then [""] + Split(s[1..], d)
    else [[s[0]] + Split(s[1..], d)[0]] + Split(s[1..], d)[1..]
  }

  /** The pieces are made of the characters of the whole, without the delimiter. */
  lemma {:induction false} Piece(s: string, d: char, i: nat)
    requires i < |Split(s, d)|
    ensures Free(Split(s, d)[i], d) && forall c | c in Split(s, d)[i] :: c in s
  {
    if s != [] {
      if s[0] == d {
        if i > 0 {
          Piece(s[1..], d, i - 1);
        }
      } else {
        Piece(s[1..], d, i);
      }
    }
  }

  lemma {:induction false} Pieces(s: string, d: char)
    ensures forall p | p in Split(s, d) :: Free(p, d)
  {
    forall p | p in Split(s, d)
      ensures Free(p, d)
    {
      var i :| 0 <= i < |Split(s, d)| && Split(s, d)[i] == p;
      Piece(s, d, i);
    }
  }

  lemma {:induction false} SplitWhole(s: string, d: char)
    requires Free(s, d)
    ensures Split(s, d) == [s]
  {
    if s != [] {
      assert s[0] in s;
      SplitWhole(s[1..], d);
      assert [s[0]] + s[1..] == s;
    }
  }

  function Join(parts: seq<string>, d: char): string {
    if parts == [] then "" else if |parts| == 1 then parts[0] else parts[0] + [d] + Join(parts[1..], d)
  }

  /** Splitting at the first delimiter. */
  lemma {:induction false} SplitFirst(a: string, d: char, b: string)
    requires Free(a, d)
    ensures Split(a + [d] + b, d) == [a] + Split(b, d)
  {
    var s := a + [d] + b;
    if a == [] {
      assert s[1..] == b;
    } else {
      assert s[0] in a && s[1..] == a[1..] + [d] + b;
      SplitFirst(a[1..], d, b);
      assert [s[0]] + a[1..] == a;
    }
  }

  lemma {:induction false} SplitConcat(a: string, d: char, b: string)
    ensures Split(a + [d] + b, d) == Split(a, d) + Split(b, d)
  {
    var s := a + [d] + b;
    if a == [] {
      assert s[1..] == b;
    } else {
      assert s[1..] == a[1..] + [d] + b;
      SplitConcat(a[1..], d, b);
    }
  }

  /** Text without the delimiter stays with the first piece. */
  lemma {:induction false} SplitPrefix(a: string, d: char, b: string)
    requires Free(a, d)
    ensures Split(a + b, d) == [a + Split(b, d)[0]] + Split(b, d)[1..]
  {
    if a == [] {
      assert a + b == b;
      assert [] + Split(b, d)[0] == Split(b, d)[0];
    } else {
      assert (a + b)[0] in a && (a + b)[1..] == a[1..] + b;
      SplitPrefix(a[1..], d, b);
      assert [a[0]] + (a[1..] + Split(b, d)[0]) == a + Split(b, d)[0];
    }
  }

  lemma {:induction false} SplitJoin(parts: seq<string>, d: char)
    requires parts != [] && forall p | p in parts :: Free(p, d)
    ensures Split(Join(parts, d), d) == parts
  {
    if |parts| == 1 {
      SplitWhole(parts[0], d);
    } else {
      SplitFirst(parts[0], d, Join(parts[1..], d));
      SplitJoin(parts[1..], d);
      assert parts == [parts[0]] + parts[1..];
    }
  }

  /** `str::split_once` */
  function SplitOnce(s: string, d: char): (r: Option<(string, string)>)
    ensures r.Some? ==> s == r.value.0 + [d] + r.value.1 && Free(r.value.0, d)
    ensures r.None? <==> Free(s, d)
  {
    if s == [] then None
    else if s[0] == d then Some(([], s[1..]))
    else
      match SplitOnce(s[1..], d)
      case None => None
      case Some((a, b)) => Some(([s[0]] + a, b))
  }

  // ---------------------------------------------------------------- searching and replacing

  predicate OccursAt(s: string, buffer: string, i: int) {
    0 <= i && i + |s| <= |buffer| && buffer[i..i + |s|] == s
  }

  /** Position of the first occurrence of `s` at or after `from`. */
  function FirstOccurrence(s: string, buffer: string, from: nat): (r: Option<nat>)
    ensures r.Some? ==> from <= r.value && OccursAt(s, buffer, r.value)
    ensures r.Some? ==> forall j | from <= j < r.value :: !OccursAt(s, buffer, j)
    ensures r.None? ==> forall j | from <= j :: !OccursAt(s, buffer, j)
    decreases |buffer| - from
  {
    if from + |s| > |buffer| then None
    else if buffer[from..from + |s|] == s then Some(from)
    else FirstOccurrence(s, buffer, from + 1)
  }

  /** `replace` by nothing */
  function Remove(s: string, sub: string): string
    requires sub != ""
  {
    if s == "" then ""
    else if StartsWith(s, sub) then Remove(s[|sub|..], sub)
    else [s[0]] + Remove(s[1..], sub)
  }

  lemma {:induction false} RemoveNothing(s: string, sub: string)
    requires sub != "" && !Contains(s, sub)
    ensures Remove(s, sub) == s
  {
    if s != "" {
      RemoveNothing(s[1..], sub);
      assert [s[0]] + s[1..] == s;
    }
  }

  lemma {:induction false} RemoveShrinks(s: string, sub: string)
    requires sub != ""
    ensures |Remove(s, sub)| <= |s| && (Contains(s, sub) ==> |Remove(s, sub)| < |s|)
  {
    if s != "" {
      RemoveShrinks(if StartsWith(s, sub) then s[|sub|..] else s[1..], sub);
    }
  }

  // ---------------------------------------------------------------- characters

  predicate IsAscii(s: string) {
    forall i | 0 <= i < |s| :: s[i] as int < 128
  }

  predicate IsHexDigit(c: char) {
    '0' <= c <= '9' || 'a' <= c <= 'f' || 'A' <= c <= 'F'
  }

  predicate IsHex(s: string) {
    forall i | 0 <= i < |s| :: IsHexDigit(s[i])
  }

  /** What `git2::Oid::from_str` accepts. */
  predicate IsOid(s: string) {
    1 <= |s| <= 40 && IsHex(s)
  }
}
