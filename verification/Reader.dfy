/** The streaming reader: a thread that strips escape codes and feeds a channel, and a
    consumer that waits for a needle in its buffer. Interleavings are non-deterministic
    choices, so every `ensures` below holds for all of them. */
module Reader {
  import opened Wrappers
  import opened Strings = Text

  /** A byte of an ASCII stream; pushing it to the buffer adds exactly one byte. */
  type Ascii = c: char | c as int < 128 witness 'a'

  const ESC: Ascii := 27 as char

  datatype PipedChar = Char(c: Ascii) | EndOfFile

  datatype Needle = Text(s: string) | NBytes(n: nat) | Eof | Any(needles: seq<Needle>)

  datatype Error = EofReached(got: string)

  type Match = m: (nat, nat) | m.0 <= m.1 witness (0, 0)

  // ---------------------------------------------------------------- searching a buffer

  predicate Before(a: Match, b: Match) {
    a.0 < b.0 || (a.0 == b.0 && a.1 <= b.1)
  }

  function LeftMost(a: Option<Match>, b: Option<Match>): Option<Match> {
    if a.None? then b else if b.None? || Before(a.value, b.value) then a else b
  }

  function Find(needle: Needle, buffer: string, eof: bool): (r: Option<Match>)
    ensures r.Some? ==> r.value.1 <= |buffer|
    decreases needle, 1
  {
    match needle
    case Text(s) =>
      (match FirstOccurrence(s, buffer, 0)
       case None => None
       case Some(pos) => Some((pos, pos + |s|)))
    case Eof => if eof then Some((0, |buffer|)) else None
    case NBytes(n) =>
      if n <= |buffer| then Some((0, n))
      else if eof && buffer != [] then Some((0, |buffer|))
      else None
    case Any(needles) => FindAny(needles, buffer, eof)
  }

  function FindAny(needles: seq<Needle>, buffer: string, eof: bool): (r: Option<Match>)
    ensures r.Some? ==> r.value.1 <= |buffer|
    decreases needles, 0
  {
    if needles == [] then None
    else LeftMost(Find(needles[0], buffer, eof), FindAny(needles[1..], buffer, eof))
  }

  /** `Any` answers with a match of one of its needles ... */
  lemma {:induction false} FindAnyIsOne(needles: seq<Needle>, buffer: string, eof: bool) returns (k: nat)
    requires FindAny(needles, buffer, eof).Some?
    ensures k < |needles| && Find(needles[k], buffer, eof) == FindAny(needles, buffer, eof)
  {
    var rest := FindAny(needles[1..], buffer, eof);
    if FindAny(needles, buffer, eof) == Find(needles[0], buffer, eof) {
      k := 0;
    } else {
      k := FindAnyIsOne(needles[1..], buffer, eof);
      k := k + 1;
    }
  }

  /** ... and with the least of them. */
  lemma {:induction false} FindAnyIsLeast(needles: seq<Needle>, buffer: string, eof: bool, k: nat)
    requires k < |needles| && Find(needles[k], buffer, eof).Some?
    ensures FindAny(needles, buffer, eof).Some?
    ensures Before(FindAny(needles, buffer, eof).value, Find(needles[k], buffer, eof).value)
  {
    if k > 0 {
      FindAnyIsLeast(needles[1..], buffer, eof, k - 1);
    }
  }

  // ---------------------------------------------------------------- timing independence

  /** What `read_until` returns when the whole stream is already in the buffer. */
  function Outcome(needle: Needle, stream: string): Result<(string, string), Error> {
    match Find(needle, stream, true)
    case Some(m) => Ok((stream[..m.0], stream[m.0..m.1]))
    case None => Err(EofReached(stream))
  }

  /** A reply for a string is what comes before its first occurrence and the string itself. */
  lemma {:induction false} TextReply(stream: string, s: string)
    ensures match Outcome(Text(s), stream)
      case Ok((before, found)) =>
        found == s && before + s <= stream && forall i | 0 <= i < |before| :: !OccursAt(s, stream, i)
      case Err(EofReached(got)) => got == stream && forall i :: !OccursAt(s, stream, i)
  {
    var first := FirstOccurrence(s, stream, 0);
    if first.Some? {
      assert stream[..first.value] + s == stream[..first.value + |s|];
    }
  }

  /** For a byte count it is that many bytes, or all there are; for the end of file it is everything. */
  lemma {:induction false} OtherReplies(stream: string, n: nat)
    ensures n <= |stream| ==> Outcome(NBytes(n), stream) == Ok(("", stream[..n]))
    ensures 0 < |stream| < n ==> Outcome(NBytes(n), stream) == Ok(("", stream))
    ensures |stream| == 0 < n ==> Outcome(NBytes(n), stream) == Err(EofReached(""))
    ensures Outcome(Eof, stream) == Ok(("", stream))
  {
    assert stream[..0] == "" && stream[0..|stream|] == stream;
  }

  /** On every ASCII stream, a match found early is the match that the whole stream would give. */
  ghost predicate TimingFree(needle: Needle) {
    forall seen: string, rest: string | Strings.IsAscii(seen + rest) && Find(needle, seen, false).Some? ::
      Find(needle, seen + rest, true) == Find(needle, seen, false)
  }

  lemma {:induction false} OccursInPrefix(s: string, seen: string, rest: string, i: nat)
    requires i + |s| <= |seen|
    ensures OccursAt(s, seen, i) <==> OccursAt(s, seen + rest, i)
  {
    assert (seen + rest)[i..i + |s|] == seen[i..i + |s|];
  }

  lemma {:induction false} TextFoundEarly(s: string, seen: string, rest: string)
    requires FirstOccurrence(s, seen, 0).Some?
    ensures FirstOccurrence(s, seen + rest, 0) == FirstOccurrence(s, seen, 0)
  {
    var i := FirstOccurrence(s, seen, 0).value;
    OccursInPrefix(s, seen, rest, i);
    var whole := FirstOccurrence(s, seen + rest, 0);
    if whole.Some? && whole.value < i {
      OccursInPrefix(s, seen, rest, whole.value);
    }
  }

  lemma {:induction false} TextTimingFree(s: string)
    ensures TimingFree(Text(s))
  {
    forall seen: string, rest: string | Find(Text(s), seen, false).Some?
      ensures Find(Text(s), seen + rest, true) == Find(Text(s), seen, false)
    {
      hide FirstOccurrence, Strings.IsAscii;
      TextFoundEarly(s, seen, rest);
    }
  }

  lemma {:induction false} NBytesTimingFree(n: nat)
    ensures TimingFree(NBytes(n))
  {
    forall seen: string, rest: string | Find(NBytes(n), seen, false).Some?
      ensures Find(NBytes(n), seen + rest, true) == Find(NBytes(n), seen, false)
    {
      assert n <= |seen| <= |seen + rest|;
    }
  }

  lemma {:induction false} EofTimingFree()
    ensures TimingFree(Eof)
  {
    forall seen: string
      ensures Find(Eof, seen, false).None?
    {}
  }

  lemma {:induction false} PlainNeedlesTimingFree(needle: Needle)
    requires !needle.Any?
    ensures TimingFree(needle)
  {
    match needle
    case Text(s) => TextTimingFree(s);
    case NBytes(n) => NBytesTimingFree(n);
    case Eof => EofTimingFree();
  }

  function Texts(ss: seq<string>): (needles: seq<Needle>)
    ensures |needles| == |ss|
    ensures forall i | 0 <= i < |ss| :: needles[i] == Text(ss[i])
  {
    seq(|ss|, i requires 0 <= i < |ss| => Text(ss[i]))
  }

  /** `inner` lies strictly inside `outer`, at `k`, and no alternative matches at the start of
      `outer` by the time `inner` ends: whoever looks early sees `inner`, whoever looks late `outer`. */
  ghost predicate Overtakes(ss: seq<string>, outer: string, inner: string, k: nat) {
    && outer in ss && inner in ss && Strings.IsAscii(outer)
    && 0 < k && k + |inner| < |outer| && OccursAt(inner, outer, k)
    && forall s | s in ss :: !(|s| <= k + |inner| && OccursAt(s, outer, 0))
  }

  ghost predicate Ambiguous(ss: seq<string>) {
    exists outer, inner, k: nat :: Overtakes(ss, outer, inner, k)
  }

  lemma {:induction false} TextMatchIsLeast(ss: seq<string>, buffer: string, eof: bool, s: string, i: nat)
    requires s in ss && OccursAt(s, buffer, i)
    ensures FindAny(Texts(ss), buffer, eof).Some?
    ensures Before(FindAny(Texts(ss), buffer, eof).value, (i, i + |s|))
  {
    var k :| 0 <= k < |ss| && ss[k] == s;
    var first := FirstOccurrence(s, buffer, 0).value;
    assert Find(Texts(ss)[k], buffer, eof) == Some((first, first + |s|));
    FindAnyIsLeast(Texts(ss), buffer, eof, k);
  }

  lemma {:induction false} TextMatch(ss: seq<string>, buffer: string, eof: bool)
    requires FindAny(Texts(ss), buffer, eof).Some?
    ensures var m := FindAny(Texts(ss), buffer, eof).value;
      buffer[m.0..m.1] in ss && OccursAt(buffer[m.0..m.1], buffer, m.0)
  {
    var k := FindAnyIsOne(Texts(ss), buffer, eof);
    assert Find(Text(ss[k]), buffer, eof).Some?;
  }

  /** Exactly when a list of alternative strings answers independently of timing. */
  lemma {:induction false} AnyOfTextsTimingFree(ss: seq<string>)
    ensures TimingFree(Any(Texts(ss))) <==> !Ambiguous(ss)
  {
    var needle := Any(Texts(ss));
    if Ambiguous(ss) {
      var outer, inner, k: nat :| Overtakes(ss, outer, inner, k);
      var seen, rest := outer[..k + |inner|], outer[k + |inner|..];
      AmbiguousDiffers(ss, outer, inner, k);
      assert seen + rest == outer;
      assert !TimingFree(needle);
    } else if !TimingFree(needle) {
      var seen: string, rest: string :| Strings.IsAscii(seen + rest) && Find(needle, seen, false).Some? &&
        Find(needle, seen + rest, true) != Find(needle, seen, false);
      DifferenceIsAmbiguity(ss, seen, rest);
    }
  }

  /** An alternative inside another: once `ab` has come, `b` is found, and once `abc` has, `abc` is. */
  lemma {:induction false} SomeAreAmbiguous()
    ensures Ambiguous(["abc", "b"]) && !TimingFree(Any(Texts(["abc", "b"])))
  {
    var ss := ["abc", "b"];
    assert "abc" == ss[0] && "b" == ss[1] && ss[0] in ss && ss[1] in ss;
    assert "abc"[1..1 + |"b"|] == "b" && "b"[0] == 'b' && "abc"[0] == 'a';
    assert Overtakes(ss, "abc", "b", 1);
    AnyOfTextsTimingFree(ss);
  }

  lemma {:induction false} AmbiguousDiffers(ss: seq<string>, outer: string, inner: string, k: nat)
    requires Overtakes(ss, outer, inner, k)
    ensures var seen := outer[..k + |inner|];
      && Find(Any(Texts(ss)), seen, false).Some?
      && Find(Any(Texts(ss)), outer, true) != Find(Any(Texts(ss)), seen, false)
  {
    var seen, rest := outer[..k + |inner|], outer[k + |inner|..];
    assert seen + rest == outer;
    OccursInPrefix(inner, seen, rest, k);
    TextMatchIsLeast(ss, seen, false, inner, k);
    TextMatch(ss, seen, false);
    assert OccursAt(outer, outer, 0);
    TextMatchIsLeast(ss, outer, true, outer, 0);
    var early := FindAny(Texts(ss), seen, false).value;
    if early.0 == 0 {
      OccursInPrefix(seen[early.0..early.1], seen, rest, 0);
    }
  }

  lemma {:induction false} DifferenceIsAmbiguity(ss: seq<string>, seen: string, rest: string)
    requires Strings.IsAscii(seen + rest) && Find(Any(Texts(ss)), seen, false).Some?
    requires Find(Any(Texts(ss)), seen + rest, true) != Find(Any(Texts(ss)), seen, false)
    ensures Ambiguous(ss)
  {
    hide FindAny, FirstOccurrence;
    var whole := seen + rest;
    TextMatch(ss, seen, false);
    var early := FindAny(Texts(ss), seen, false).value;
    var inner := seen[early.0..early.1];
    OccursInPrefix(inner, seen, rest, early.0);
    TextMatchIsLeast(ss, whole, true, inner, early.0);
    TextMatch(ss, whole, true);
    var late := FindAny(Texts(ss), whole, true).value;
    var outer := whole[late.0..late.1];
    if late.1 <= |seen| {
      OccursInPrefix(outer, seen, rest, late.0);
      TextMatchIsLeast(ss, seen, false, outer, late.0);
      assert false;
    }
    forall s, i: nat | s in ss && OccursAt(s, seen, i)
      ensures Before(early, (i, i + |s|))
    {
      TextMatchIsLeast(ss, seen, false, s, i);
    }
    MatchesOvertake(ss, seen, rest, early, late);
  }

  lemma {:induction false} OccursAtStart(s: string, seen: string, rest: string, start: nat, end: nat)
    requires start + |s| <= |seen| && start + |s| <= end <= |seen + rest|
    ensures OccursAt(s, (seen + rest)[start..end], 0) <==> OccursAt(s, seen, start)
  {
    assert (seen + rest)[start..end][0..|s|] == seen[start..start + |s|];
  }

  lemma {:induction false} MatchesOvertake(ss: seq<string>, seen: string, rest: string, early: Match, late: Match)
    requires Strings.IsAscii(seen + rest) && early.1 <= |seen| < late.1 <= |seen + rest| && late.0 < early.0
    requires seen[early.0..early.1] in ss && (seen + rest)[late.0..late.1] in ss
    requires forall s, i: nat | s in ss && OccursAt(s, seen, i) :: Before(early, (i, i + |s|))
    ensures Ambiguous(ss)
  {
    var whole := seen + rest;
    var inner, outer := seen[early.0..early.1], whole[late.0..late.1];
    var k := early.0 - late.0;
    assert outer[k..k + |inner|] == whole[early.0..early.1] == inner;
    forall s | s in ss && |s| <= k + |inner|
      ensures !OccursAt(s, outer, 0)
    {
      OccursAtStart(s, seen, rest, late.0, late.1);
    }
    assert Overtakes(ss, outer, inner, k);
  }

  /** The needles that a needle tries, at whatever depth, in their order. */
  function Leaves(needle: Needle): (r: seq<Needle>)
    ensures forall l | l in r :: !l.Any?
    decreases needle, 1
  {
    match needle
    case Any(needles) => AllLeaves(needles)
    case _ => [needle]
  }

  function AllLeaves(needles: seq<Needle>): (r: seq<Needle>)
    ensures forall l | l in r :: !l.Any?
    decreases needles, 0
  {
    if needles == [] then [] else Leaves(needles[0]) + AllLeaves(needles[1..])
  }

  lemma {:induction false} FindAnyAppend(a: seq<Needle>, b: seq<Needle>, buffer: string, eof: bool)
    ensures FindAny(a + b, buffer, eof) == LeftMost(FindAny(a, buffer, eof), FindAny(b, buffer, eof))
  {
    if a == [] {
      assert a + b == b;
    } else {
      assert (a + b)[1..] == a[1..] + b;
      FindAnyAppend(a[1..], b, buffer, eof);
    }
  }

  /** Nesting makes no difference to what is found. */
  lemma {:induction false} FindIsOfLeaves(needle: Needle, buffer: string, eof: bool)
    ensures Find(needle, buffer, eof) == FindAny(Leaves(needle), buffer, eof)
    decreases needle, 1
  {
    if needle.Any? {
      FindAnyIsOfLeaves(needle.needles, buffer, eof);
    } else {
      assert [needle][1..] == [];
    }
  }

  lemma {:induction false} FindAnyIsOfLeaves(needles: seq<Needle>, buffer: string, eof: bool)
    ensures FindAny(needles, buffer, eof) == FindAny(AllLeaves(needles), buffer, eof)
    decreases needles, 0
  {
    if needles != [] {
      FindIsOfLeaves(needles[0], buffer, eof);
      FindAnyIsOfLeaves(needles[1..], buffer, eof);
      FindAnyAppend(Leaves(needles[0]), AllLeaves(needles[1..]), buffer, eof);
    }
  }

  /** One string is found after one other character, no string starts at that character, and no byte count is
      reached yet: the end of file, or a byte count that the end of file cuts short, would start earlier. */
  ghost predicate Intruded(leaves: seq<Needle>) {
    exists c: char, s :: Intrudes(leaves, c, s)
  }

  ghost predicate Intrudes(leaves: seq<Needle>, c: char, s: string) {
    && Text(s) in leaves && Strings.IsAscii([c] + s)
    && (forall t | Text(t) in leaves :: !(t <= [c] + s))
    && (forall n | NBytes(n) in leaves :: |s| + 1 < n)
  }

  ghost predicate OnlyTexts(leaves: seq<Needle>) {
    forall l | l in leaves :: l.Text?
  }

  ghost function StringsOf(leaves: seq<Needle>): seq<string>
    requires OnlyTexts(leaves)
  {
    seq(|leaves|, i requires 0 <= i < |leaves| => leaves[i].s)
  }

  /** Exactly when a needle of any shape answers independently of timing. */
  lemma {:induction false} TimingFreeExactly(needle: Needle)
    ensures TimingFree(needle) <==>
      if OnlyTexts(Leaves(needle)) then !Ambiguous(StringsOf(Leaves(needle))) else !Intruded(Leaves(needle))
  {
    var leaves := Leaves(needle);
    forall buffer: string, eof
      ensures Find(needle, buffer, eof) == Find(Any(leaves), buffer, eof)
    {
      FindIsOfLeaves(needle, buffer, eof);
    }
    assert TimingFree(needle) <==> TimingFree(Any(leaves));
    if OnlyTexts(leaves) {
      assert forall i | 0 <= i < |leaves| :: leaves[i] in leaves;
      assert leaves == Texts(StringsOf(leaves));
      AnyOfTextsTimingFree(StringsOf(leaves));
    } else {
      MixedTimingFree(leaves);
    }
  }

  lemma {:induction false} MixedTimingFree(leaves: seq<Needle>)
    requires !OnlyTexts(leaves) && forall l | l in leaves :: !l.Any?
    ensures TimingFree(Any(leaves)) <==> !Intruded(leaves)
  {
    if Intruded(leaves) {
      var c: char, s :| Intrudes(leaves, c, s);
      IntrudedDiffers(leaves, c, s);
      assert ([c] + s) + [] == [c] + s;
      assert !TimingFree(Any(leaves));
    } else {
      forall seen: string, rest: string | Strings.IsAscii(seen + rest) && Find(Any(leaves), seen, false).Some?
        ensures Find(Any(leaves), seen + rest, true) == Find(Any(leaves), seen, false)
      {
        if FindAny(leaves, seen, false).value.0 == 0 {
          FoundAtStart(leaves, seen, rest);
        } else {
          assert seen == (seen + rest)[..|seen|];
          FoundLater(leaves, seen);
        }
      }
    }
  }

  lemma {:induction false} IntrudedDiffers(leaves: seq<Needle>, c: char, s: string)
    requires !OnlyTexts(leaves) && forall l | l in leaves :: !l.Any?
    requires Intrudes(leaves, c, s)
    ensures var stream := [c] + s;
      && Find(Any(leaves), stream, false).Some?
      && Find(Any(leaves), stream, true) != Find(Any(leaves), stream, false)
  {
    var stream := [c] + s;
    var k :| 0 <= k < |leaves| && leaves[k] == Text(s);
    assert stream[1..1 + |s|] == s;
    assert OccursAt(s, stream, 1);
    FindAnyIsLeast(leaves, stream, false, k);
    var one := FindAnyIsOne(leaves, stream, false);
    assert leaves[one] in leaves;
    assert FindAny(leaves, stream, false).value.0 != 0;
    var other :| 0 <= other < |leaves| && !leaves[other].Text?;
    assert Find(leaves[other], stream, true) == Some((0, |stream|));
    FindAnyIsLeast(leaves, stream, true, other);
  }

  /** What is found at the start of the buffer stays the answer. */
  lemma {:induction false} FoundAtStart(leaves: seq<Needle>, seen: string, rest: string)
    requires forall l | l in leaves :: !l.Any?
    requires FindAny(leaves, seen, false).Some? && FindAny(leaves, seen, false).value.0 == 0
    ensures FindAny(leaves, seen + rest, true) == FindAny(leaves, seen, false)
  {
    var early := FindAnyIsOne(leaves, seen, false);
    assert leaves[early] in leaves;
    PlainNeedlesTimingFree(leaves[early]);
    FindAnyIsLeast(leaves, seen + rest, true, early);
    var late := FindAnyIsOne(leaves, seen + rest, true);
    var found := FindAny(leaves, seen + rest, true).value;
    assert leaves[late] in leaves;
    if leaves[late].Text? {
      OccursInPrefix(leaves[late].s, seen, rest, 0);
    }
    if Find(leaves[late], seen, false).Some? {
      FindAnyIsLeast(leaves, seen, false, late);
      PlainNeedlesTimingFree(leaves[late]);
    }
  }

  /** A string that matches where the least match starts less one would have been found first. */
  lemma {:induction false} NoTextBefore(leaves: seq<Needle>, seen: string, k: nat, found: Match)
    requires k < |leaves| && leaves[k].Text? && FindAny(leaves, seen, false) == Some(found) && 0 < found.0
    ensures !OccursAt(leaves[k].s, seen, found.0 - 1)
  {
    hide FindAny;
    if FirstOccurrence(leaves[k].s, seen, 0).Some? {
      FindAnyIsLeast(leaves, seen, false, k);
    }
  }

  lemma {:induction false} NoBytesYet(leaves: seq<Needle>, seen: string, k: nat, found: Match)
    requires k < |leaves| && leaves[k].NBytes? && FindAny(leaves, seen, false) == Some(found) && 0 < found.0
    ensures |seen| < leaves[k].n
  {
    if leaves[k].n <= |seen| {
      hide FindAny;
      FindAnyIsLeast(leaves, seen, false, k);
    }
  }

  /** The match is that of a string. */
  lemma {:induction false} LaterIsText(leaves: seq<Needle>, seen: string, found: Match) returns (s: string)
    requires forall l | l in leaves :: !l.Any?
    requires FindAny(leaves, seen, false) == Some(found) && found.0 > 0
    ensures Text(s) in leaves && OccursAt(s, seen, found.0) && found.1 == found.0 + |s| <= |seen|
  {
    var early := FindAnyIsOne(leaves, seen, false);
    hide FindAny;
    assert leaves[early] in leaves;
    s := leaves[early].s;
  }

  lemma {:induction false} OccursOneBefore(t: string, c: char, s: string, seen: string, start: nat)
    requires 0 < start && start + |s| <= |seen| && c == seen[start - 1] && OccursAt(s, seen, start)
    ensures t <= [c] + s ==> OccursAt(t, seen, start - 1)
  {
    assert seen[start - 1..start + |s|] == [c] + s;
    if t <= [c] + s {
      assert seen[start - 1..start - 1 + |t|] == ([c] + s)[..|t|];
    }
  }

  lemma {:induction false} FoundLater(leaves: seq<Needle>, seen: string)
    requires forall l | l in leaves :: !l.Any?
    requires Strings.IsAscii(seen) && FindAny(leaves, seen, false).Some? && FindAny(leaves, seen, false).value.0 > 0
    ensures Intruded(leaves)
  {
    hide FindAny, FirstOccurrence;
    var found := FindAny(leaves, seen, false).value;
    var s := LaterIsText(leaves, seen, found);
    var c := seen[found.0 - 1];
    assert seen[found.0 - 1..found.1] == [c] + s;
    forall k | 0 <= k < |leaves|
      ensures leaves[k].Text? ==> !(leaves[k].s <= [c] + s)
      ensures leaves[k].NBytes? ==> |s| + 1 < leaves[k].n
    {
      if leaves[k].NBytes? {
        NoBytesYet(leaves, seen, k, found);
      }
      if leaves[k].Text? {
        NoTextBefore(leaves, seen, k, found);
        OccursOneBefore(leaves[k].s, c, s, seen, found.0);
      }
    }
    assert Intrudes(leaves, c, s);
  }

  /** Waiting for a string or the end of file depends on timing unless the string is empty or cannot come: once
      the end has been seen, the end of file wins over a string that starts later in the buffer. */
  lemma {:induction false} TextOrEofTimingFree(s: string)
    ensures TimingFree(Any([Text(s), Eof])) <==> s == [] || !Strings.IsAscii(s)
  {
    var leaves := [Text(s), Eof];
    assert Eof in leaves;
    MixedTimingFree(leaves);
    if s == [] {
      assert Text([]) in leaves;
    } else if !Strings.IsAscii(s) {
      forall c: char, t
        ensures !Intrudes(leaves, c, t)
      {
        assert ([c] + t)[1..] == t;
      }
    } else {
      var c: char := if s[0] == 'a' then 'b' else 'a';
      assert Intrudes(leaves, c, s);
    }
  }

  /** The match is the one found in some initial part of the stream: the only freedom that timing leaves. */
  ghost predicate SomePrefixGives(needle: Needle, stream: string, start: nat, end: nat)
    requires start <= end
  {
    exists seen, eof :: seen <= stream && (eof ==> seen == stream) && Find(needle, seen, eof) == Some((start, end))
  }

  lemma {:induction false} EarlyOutcome(needle: Needle, seen: string, rest: string, eof: bool)
    requires Find(needle, seen, eof).Some?
    requires eof ==> rest == []
    ensures var m := Find(needle, seen, eof).value;
      && SomePrefixGives(needle, seen + rest, m.0, m.1)
      && (eof || (TimingFree(needle) && Strings.IsAscii(seen + rest)) ==>
            Outcome(needle, seen + rest) == Ok((seen[..m.0], seen[m.0..m.1])))
  {
    var m := Find(needle, seen, eof).value;
    assert eof ==> seen + rest == seen;
    assert (seen + rest)[..m.0] == seen[..m.0] && (seen + rest)[m.0..m.1] == seen[m.0..m.1];
  }

  lemma {:induction false} NoOutcome(needle: Needle, stream: string)
    requires Find(needle, stream, true).None?
    ensures Outcome(needle, stream) == Err(EofReached(stream))
  {}

  // ---------------------------------------------------------------- stripping escape codes

  predicate IsAlphabetic(c: Ascii) {
    'a' <= c <= 'z' || 'A' <= c <= 'Z'
  }

  /** State of the stripping loop after one byte. */
  function EscapeAfter(strip: bool, inEscape: bool, c: Ascii): bool {
    strip && (c == ESC || (inEscape && !IsAlphabetic(c)))
  }

  /** What the thread sends on for one byte. */
  function Kept(strip: bool, inEscape: bool, c: Ascii): string {
    if !strip || (c != ESC && !inEscape) then [c] else []
  }

  function Strip(strip: bool, inEscape: bool, input: seq<Ascii>): string
    decreases input
  {
    if input == [] then []
    else Kept(strip, inEscape, input[0])
         + Strip(strip, EscapeAfter(strip, inEscape, input[0]), input[1..])
  }

  function EscapeState(strip: bool, inEscape: bool, input: seq<Ascii>): bool
    decreases input
  {
    if input == [] then inEscape else EscapeState(strip, EscapeAfter(strip, inEscape, input[0]), input[1..])
  }

  lemma {:induction false} StripAppend(strip: bool, inEscape: bool, a: seq<Ascii>, b: seq<Ascii>)
    ensures Strip(strip, inEscape, a + b)
         == Strip(strip, inEscape, a) + Strip(strip, EscapeState(strip, inEscape, a), b)
    ensures EscapeState(strip, inEscape, a + b) == EscapeState(strip, EscapeState(strip, inEscape, a), b)
    decreases a
  {
    if a == [] {
      assert a + b == b;
    } else {
      var next := EscapeAfter(strip, inEscape, a[0]);
      StripAppend(strip, next, a[1..], b);
      assert (a + b)[1..] == a[1..] + b;
      Assoc(Kept(strip, inEscape, a[0]), Strip(strip, next, a[1..]), Strip(strip, EscapeState(strip, next, a[1..]), b));
    }
  }

  lemma {:induction false} StripSnoc(strip: bool, a: seq<Ascii>, c: Ascii)
    ensures Strip(strip, false, a + [c]) == Strip(strip, false, a) + Kept(strip, EscapeState(strip, false, a), c)
    ensures EscapeState(strip, false, a + [c]) == EscapeAfter(strip, EscapeState(strip, false, a), c)
  {
    StripAppend(strip, false, a, [c]);
    var s := EscapeState(strip, false, a);
    assert [c][1..] == [];
    assert Strip(strip, s, [c]) == Kept(strip, s, c);
    assert EscapeState(strip, s, [c]) == EscapeAfter(strip, s, c);
  }

  /** An escape code covers position `i`: one was opened before it and no letter has closed it since. */
  ghost predicate Covered(input: seq<Ascii>, i: nat)
    requires i <= |input|
  {
    exists j :: 0 <= j < i && input[j] == ESC && forall l | j < l < i :: !IsAlphabetic(input[l])
  }

  ghost function Visible(input: seq<Ascii>): string {
    if input == [] then []
    else
      var last := |input| - 1;
      Visible(input[..last]) + (if input[last] != ESC && !Covered(input, last) then [input[last]] else [])
  }

  lemma {:induction false} CoveredAfter(input: seq<Ascii>)
    requires input != []
    ensures var last := |input| - 1;
      && Covered(input[..last], last) == Covered(input, last)
      && Covered(input, |input|) == EscapeAfter(true, Covered(input, last), input[last])
  {
    var last := |input| - 1;
    var front := input[..last];
    if Covered(input, last) {
      var j :| 0 <= j < last && input[j] == ESC && forall l | j < l < last :: !IsAlphabetic(input[l]);
      assert front[j] == ESC && forall l | j < l < last :: !IsAlphabetic(front[l]);
      if !IsAlphabetic(input[last]) {
        assert forall l | j < l < |input| :: !IsAlphabetic(input[l]);
      }
    }
    if input[last] == ESC {
      assert Covered(input, |input|);
    }
    if Covered(front, last) {
      var j :| 0 <= j < last && front[j] == ESC && forall l | j < l < last :: !IsAlphabetic(front[l]);
      assert input[j] == ESC && forall l | j < l < last :: !IsAlphabetic(input[l]);
    }
  }

  /** The one-flag loop keeps exactly the bytes that no escape code covers. */
  lemma {:induction false} StripKeepsVisible(input: seq<Ascii>)
    ensures EscapeState(true, false, input) == Covered(input, |input|)
    ensures Strip(true, false, input) == Visible(input)
  {
    if input != [] {
      var last := |input| - 1;
      var front := input[..last];
      StripKeepsVisible(front);
      StripSnoc(true, front, input[last]);
      assert input == front + [input[last]];
      CoveredAfter(input);
    }
  }

  /** Without stripping, everything is sent on. */
  lemma {:induction false} NothingStripped(inEscape: bool, input: seq<Ascii>)
    ensures Strip(false, inEscape, input) == input
  {
    if input != [] {
      NothingStripped(EscapeAfter(false, inEscape, input[0]), input[1..]);
      assert Strip(false, inEscape, input) == [input[0]] + input[1..];
    }
  }

  /** With stripping, an escape code goes: the escape character, and all up to and with the next letter. */
  lemma {:induction false} CodeStripped(before: seq<Ascii>, code: seq<Ascii>, letter: Ascii, after: seq<Ascii>)
    requires forall i | 0 <= i < |before| :: before[i] as int != 27
    requires forall i | 0 <= i < |code| :: !('a' <= code[i] <= 'z' || 'A' <= code[i] <= 'Z')
    requires 'a' <= letter <= 'z' || 'A' <= letter <= 'Z'
    ensures Strip(true, false, before + ([27 as char] + (code + ([letter] + after)))) ==
      before + Strip(true, false, after)
  {
    if before != [] {
      var rest := [27 as char] + (code + ([letter] + after));
      assert (before + rest)[1..] == before[1..] + rest;
      CodeStripped(before[1..], code, letter, after);
      assert (before + rest)[0] == before[0] && before == [before[0]] + before[1..];
      Assoc([before[0]], before[1..], Strip(true, false, after));
    } else {
      var s: seq<Ascii> := [27 as char] + (code + ([letter] + after));
      assert before + s == s && s[1..] == code + ([letter] + after);
      CodeEnds(code, letter, after);
    }
  }

  lemma {:induction false} CodeEnds(code: seq<Ascii>, letter: Ascii, after: seq<Ascii>)
    requires forall i | 0 <= i < |code| :: !('a' <= code[i] <= 'z' || 'A' <= code[i] <= 'Z')
    requires 'a' <= letter <= 'z' || 'A' <= letter <= 'Z'
    ensures Strip(true, true, code + ([letter] + after)) == Strip(true, false, after)
  {
    var s := code + ([letter] + after);
    if code == [] {
      assert s == [letter] + after && s[1..] == after;
    } else {
      assert s[0] == code[0] && s[1..] == code[1..] + ([letter] + after);
      CodeEnds(code[1..], letter, after);
    }
  }

  lemma {:induction false} StripIsAscii(strip: bool, inEscape: bool, input: seq<Ascii>)
    ensures Strings.IsAscii(Strip(strip, inEscape, input))
    decreases input
  {
    if input != [] {
      StripIsAscii(strip, EscapeAfter(strip, inEscape, input[0]), input[1..]);
    }
  }

  // ---------------------------------------------------------------- the reading thread

  lemma {:induction false} Assoc<T>(a: seq<T>, b: seq<T>, c: seq<T>)
    ensures a + (b + c) == (a + b) + c
  {}

  function Chars(channel: seq<PipedChar>): string {
    if channel == [] then []
    else (if channel[0].Char? then [channel[0].c] else []) + Chars(channel[1..])
  }

  lemma {:induction false} CharsAppend(a: seq<PipedChar>, b: seq<PipedChar>)
    ensures Chars(a + b) == Chars(a) + Chars(b)
  {
    if a == [] {
      assert a + b == b;
    } else {
      CharsAppend(a[1..], b);
      assert (a + b)[1..] == a[1..] + b;
      Assoc(if a[0].Char? then [a[0].c] else [], Chars(a[1..]), Chars(b));
    }
  }

  class ReaderThread {
    const strip: bool
    var input: seq<Ascii>       // what the process writes and the thread has not read yet
    var inEscapeCode: bool
    var done: bool
    var channel: seq<PipedChar> // sent and not received yet
    ghost var consumed: seq<Ascii>
    ghost var received: string
    ghost var eofReceived: bool

    ghost predicate Valid()
      reads this
    {
      && (done ==> input == [])
      && (forall i | 0 <= i < |channel| && channel[i].EndOfFile? :: done && i == |channel| - 1)
      && (done && !eofReceived ==> channel != [] && channel[|channel| - 1] == EndOfFile)
      && (eofReceived ==> done && channel == [])
      && inEscapeCode == EscapeState(strip, false, consumed)
      && (inEscapeCode ==> strip)
      && received + Chars(channel) == Strip(strip, false, consumed)
    }

    /** Text that the consumer has still to receive. */
    ghost function Pending(): string
      reads this
    {
      Chars(channel) + Strip(strip, inEscapeCode, input)
    }

    ghost function StepsLeft(): nat
      reads this
    {
      if done then 0 else 1 + |input|
    }

    /** Bounds what is still going to happen: turns of the thread and messages to receive. */
    ghost function Work(): nat
      reads this
    {
      2 * StepsLeft() + |channel|
    }

    constructor (strip: bool, input: seq<Ascii>)
      ensures Valid() && !done && channel == [] && received == [] && consumed == [] && !eofReceived
      ensures this.strip == strip && this.input == input
      ensures Pending() == Strip(strip, false, input)
    {
      this.strip, this.input := strip, input;
      inEscapeCode, done, channel := false, false, [];
      consumed, received, eofReceived := [], [], false;
    }

    method Send(message: PipedChar)
      modifies `channel
      ensures channel == old(channel) + [message]
      ensures message.EndOfFile? ==> Chars(channel) == old(Chars(channel))
      ensures message.Char? ==> Chars(channel) == old(Chars(channel)) + [message.c]
    {
      CharsAppend(channel, [message]);
      assert [message][1..] == [];
      channel := channel + [message];
    }

    /** One turn of the thread's loop: read a byte, or send the end of file and stop. */
    method Step()
      requires Valid() && !done
      modifies this
      ensures Valid() && received == old(received) && eofReceived == old(eofReceived)
      ensures Pending() == old(Pending())
      ensures consumed + input == old(consumed + input)
      ensures StepsLeft() < old(StepsLeft()) && Work() < old(Work())
      ensures done <==> old(input) == []
    {
      if input == [] {
        Send(EndOfFile);
        done := true;
      } else {
        var byte := input[0];
        StripSnoc(strip, consumed, byte);
        consumed := consumed + [byte];
        input := input[1..];
        if strip && byte == ESC {
          inEscapeCode := true;
        } else if strip && inEscapeCode {
          if IsAlphabetic(byte) {
            inEscapeCode := false;
          }
        } else {
          Assoc(Chars(channel), [byte], Strip(strip, inEscapeCode, input));
          Assoc(received, Chars(channel), [byte]);
          Send(Char(byte));
        }
      }
    }

    /** The scheduler lets the thread run for any number of turns, none included. */
    method RunAWhile()
      requires Valid()
      modifies this
      ensures Valid() && received == old(received) && eofReceived == old(eofReceived)
      ensures Pending() == old(Pending()) && consumed + input == old(consumed + input)
      ensures StepsLeft() <= old(StepsLeft()) && Work() <= old(Work())
    {
      while *
        invariant Valid() && received == old(received) && eofReceived == old(eofReceived)
        invariant Pending() == old(Pending()) && consumed + input == old(consumed + input)
        invariant StepsLeft() <= old(StepsLeft()) && Work() <= old(Work())
        decreases StepsLeft()
      {
        if done {
          break;
        }
        Step();
      }
    }

    /** `Receiver::try_recv`, after whatever the thread did in the meantime. */
    method TryRecv() returns (r: Option<PipedChar>)
      requires Valid()
      modifies this
      ensures Valid() && StepsLeft() <= old(StepsLeft())
      ensures consumed + input == old(consumed + input)
      ensures r.None? ==> channel == [] && received == old(received) && Pending() == old(Pending())
      ensures r.Some? ==> Work() < old(Work()) && !old(eofReceived)
      ensures r.Some? && r.value.Char? ==>
        received == old(received) + [r.value.c] && old(Pending()) == [r.value.c] + Pending()
      ensures r.Some? && r.value.EndOfFile? ==>
        received == old(received) && Pending() == old(Pending()) == [] && eofReceived
      ensures !(r.Some? && r.value.EndOfFile?) ==> eofReceived == old(eofReceived)
    {
      RunAWhile();
      if channel == [] {
        return None;
      }
      r := Some(channel[0]);
      if channel[0].Char? {
        Assoc(received, [channel[0].c], Chars(channel[1..]));
        Assoc([channel[0].c], Chars(channel[1..]), Strip(strip, inEscapeCode, input));
        received := received + [channel[0].c];
      } else {
        eofReceived := true;
      }
      channel := channel[1..];
    }
  }

  // ---------------------------------------------------------------- the consumer

  class NBReader {
    const thread: ReaderThread
    var buffer: string
    var eof: bool
    ghost var delivered: string // everything handed to callers so far

    ghost predicate Valid()
      reads this, thread
    {
      && thread.Valid()
      && eof == thread.eofReceived
      && delivered + buffer == thread.received
      && (eof ==> thread.Pending() == [])
    }

    /** The part of the stripped stream that no caller has been given. */
    ghost function Undelivered(): string
      reads this, thread
    {
      buffer + thread.Pending()
    }

    /** Everything the process ever writes. */
    ghost function Stream(): seq<Ascii>
      reads thread
    {
      thread.consumed + thread.input
    }

    constructor (stream: seq<Ascii>, strip: bool)
      ensures Valid() && fresh(thread) && thread.strip == strip
      ensures Stream() == stream && delivered == [] && Undelivered() == Strip(strip, false, stream)
    {
      thread := new ReaderThread(strip, stream);
      buffer, eof, delivered := [], false, [];
    }

    method ReadIntoBuffer()
      requires Valid()
      modifies this, thread
      ensures Valid() && delivered == old(delivered)
      ensures Undelivered() == old(Undelivered()) && Stream() == old(Stream())
      ensures thread.StepsLeft() <= old(thread.StepsLeft())
      ensures eof ==> thread.Pending() == []
      ensures thread.channel == [] && (!eof ==> !thread.done)
    {
      if eof {
        return;
      }
      while true
        invariant Valid() && delivered == old(delivered)
        invariant Undelivered() == old(Undelivered()) && Stream() == old(Stream())
        invariant thread.StepsLeft() <= old(thread.StepsLeft())
        invariant eof ==> thread.Pending() == []
        decreases thread.Work()
      {
        var fromChannel := thread.TryRecv();
        match fromChannel {
          case None => break;
          case Some(EndOfFile) => eof := true;
          case Some(Char(c)) =>
            Assoc(buffer, [c], thread.Pending());
            Assoc(delivered, buffer, [c]);
            buffer := buffer + [c];
        }
      }
    }

    /** A reader that does not strip gives its callers the very stream. */
    lemma {:induction false} StreamDelivered()
      requires Valid() && !thread.strip
      ensures delivered + Undelivered() == Stream()
    {
      Conservation();
      NothingStripped(false, Stream());
    }

    lemma {:induction false} UndeliveredIsAscii()
      requires Valid()
      ensures Strings.IsAscii(Undelivered())
    {
      Conservation();
      StripIsAscii(thread.strip, false, Stream());
      assert Undelivered() == (delivered + Undelivered())[|delivered|..];
    }

    /** `buffer.drain(..n)`, handed to the caller. */
    method Drain(n: nat) returns (taken: string)
      requires Valid() && n <= |buffer|
      modifies this
      ensures Valid() && eof == old(eof)
      ensures taken == old(buffer)[..n] && buffer == old(buffer)[n..]
      ensures delivered == old(delivered) + taken
      ensures old(Undelivered()) == taken + Undelivered()
    {
      taken := buffer[..n];
      Assoc(delivered, taken, buffer[n..]);
      Assoc(taken, buffer[n..], thread.Pending());
      assert taken + buffer[n..] == buffer;
      delivered := delivered + taken;
      buffer := buffer[n..];
    }

    method DrainMatch(m: Match) returns (first: string, second: string)
      requires Valid() && m.1 <= |buffer|
      modifies this
      ensures Valid() && eof == old(eof)
      ensures first == old(buffer)[..m.0] && second == old(buffer)[m.0..m.1] && Stream() == old(Stream())
      ensures delivered == old(delivered) + first + second
      ensures old(Undelivered()) == first + second + Undelivered()
    {
      first := Drain(m.0);
      second := Drain(m.1 - m.0);
      Assoc(first, second, Undelivered());
    }

    /** The waiting loop of `read_until`: ends when the needle is in the buffer or the stream has ended. */
    method WaitFor(needle: Needle) returns (found: Option<Match>)
      requires Valid()
      modifies this, thread
      ensures Valid() && Stream() == old(Stream()) && delivered == old(delivered)
      ensures Undelivered() == old(Undelivered())
      ensures found == Find(needle, buffer, eof) && (found.None? ==> eof)
      ensures Undelivered() == buffer + thread.Pending() && (eof ==> thread.Pending() == [])
    {
      while true
        invariant Valid() && delivered == old(delivered)
        invariant Undelivered() == old(Undelivered()) && Stream() == old(Stream())
        decreases thread.StepsLeft()
      {
        ReadIntoBuffer();
        found := Find(needle, buffer, eof);
        if found.Some? || eof {
          return;
        }
        // the thread gets at least one turn while this one sleeps
        thread.Step();
        thread.RunAWhile();
      }
    }

    /** Blocks until the needle is found or the stream has ended. For a needle that is free of timing the
        reply is a function of the undelivered stream alone, and only what is returned is consumed. */
    method ReadUntil(needle: Needle) returns (r: Result<(string, string), Error>)
      requires Valid()
      modifies this, thread
      ensures Valid() && Stream() == old(Stream())
      ensures r.Ok? ==> delivered == old(delivered) + r.value.0 + r.value.1
      ensures r.Ok? ==> old(Undelivered()) == r.value.0 + r.value.1 + Undelivered()
      ensures r.Err? ==> delivered == old(delivered) && Undelivered() == old(Undelivered()) && eof
      ensures r.Err? ==> r == Outcome(needle, old(Undelivered()))
      ensures r.Ok? ==> SomePrefixGives(needle, old(Undelivered()), |r.value.0|, |r.value.0| + |r.value.1|)
      ensures TimingFree(needle) ==> r == Outcome(needle, old(Undelivered()))
    {
      hide *;
      var found := WaitFor(needle);
      if found.Some? {
        UndeliveredIsAscii();
        EarlyOutcome(needle, buffer, thread.Pending(), eof);
        var first, second := DrainMatch(found.value);
        return Ok((first, second));
      }
      assert buffer + [] == buffer;
      NoOutcome(needle, buffer);
      return Err(EofReached(buffer));
    }

    method TryRead() returns (r: Option<char>)
      requires Valid()
      modifies this, thread
      ensures Valid() && Stream() == old(Stream())
      ensures r.Some? ==> old(Undelivered()) == [r.value] + Undelivered() && delivered == old(delivered) + [r.value]
      ensures r.None? ==>
        Undelivered() == old(Undelivered()) && delivered == old(delivered) && buffer == [] && thread.channel == []
    {
      ReadIntoBuffer();
      if buffer == [] {
        return None;
      }
      var taken := Drain(1);
      r := Some(taken[0]);
      assert taken == [taken[0]];
    }

    /** Conservation over every run: what callers got, what is buffered and what is in the channel
        is the stripped form of what the thread has read, and with the rest, of the whole stream. */
    lemma {:induction false} Conservation()
      requires Valid()
      ensures delivered + buffer + Chars(thread.channel) == Strip(thread.strip, false, thread.consumed)
      ensures delivered + Undelivered() == Strip(thread.strip, false, Stream())
    {
      StripAppend(thread.strip, false, thread.consumed, thread.input);
    }
  }
}
