/** Fetch reports of the relays, and how they are merged whatever order they arrive in. */
module Reports {
  import opened Wrappers
  import opened Events

  /** The address of a repository announcement, without relay hints. */
  datatype Coordinate = Coordinate(pubkey: PublicKey, identifier: string)

  datatype FetchReport = FetchReport(coordinates: set<Coordinate>,
                                     updatedAnnouncements: seq<(Coordinate, nat)>,
                                     updatedState: Option<Stamp>,
                                     proposals: set<EventId>, commits: set<EventId>, statuses: set<EventId>,
                                     contributorProfiles: set<PublicKey>, profileUpdates: set<PublicKey>)

  const EMPTY := FetchReport({}, [], None, {}, {}, {}, {}, {})

  // ---------------------------------------------------------------- the order of state events

  /** Ids are compared byte by byte. */
  predicate IdLess(a: EventId, b: EventId) {
    b != [] && (a == [] || a[0] < b[0] || (a[0] == b[0] && IdLess(a[1..], b[1..])))
  }

  predicate Newer(a: Stamp, b: Stamp) {
    a.createdAt > b.createdAt || (a.createdAt == b.createdAt && IdLess(b.id, a.id))
  }

  lemma {:induction false} IdLessTransitive(a: EventId, b: EventId, c: EventId)
    requires IdLess(a, b) && IdLess(b, c)
    ensures IdLess(a, c)
  {
    if a != [] && a[0] == b[0] && b[0] == c[0] {
      IdLessTransitive(a[1..], b[1..], c[1..]);
    }
  }

  lemma {:induction false} IdLessTotal(a: EventId, b: EventId)
    ensures IdLess(a, b) || IdLess(b, a) || a == b
  {
    if a != [] && b != [] && a[0] == b[0] {
      IdLessTotal(a[1..], b[1..]);
      assert a == [a[0]] + a[1..] && b == [b[0]] + b[1..];
    }
  }

  lemma {:induction false} IdLessIrreflexive(a: EventId)
    ensures !IdLess(a, a)
  {
    if a != [] {
      IdLessIrreflexive(a[1..]);
    }
  }

  /** The texts agree up to `n`, where the first ends or has the lesser character. */
  ghost predicate LessAt(a: EventId, b: EventId, n: nat) {
    n <= |a| && n < |b| && a[..n] == b[..n] && (n == |a| || a[n] < b[n])
  }

  /** The first difference decides; a text is less than what continues it. */
  lemma {:induction false} IdLessMeans(a: EventId, b: EventId)
    ensures IdLess(a, b) <==> exists n: nat :: LessAt(a, b, n)
  {
    if a != [] && b != [] && a[0] == b[0] {
      IdLessMeans(a[1..], b[1..]);
      if n: nat :| LessAt(a, b, n) {
        assert n > 0 && a[1..][..n - 1] == a[..n][1..] && b[1..][..n - 1] == b[..n][1..];
        assert LessAt(a[1..], b[1..], n - 1);
      }
      if n: nat :| LessAt(a[1..], b[1..], n) {
        assert a[..n + 1] == [a[0]] + a[1..][..n] && b[..n + 1] == [b[0]] + b[1..][..n];
        assert LessAt(a, b, n + 1);
      }
    } else if b != [] && (a == [] || a[0] < b[0]) {
      assert LessAt(a, b, 0);
    }
  }

  lemma {:induction false} NewerIsOrder(a: Stamp, b: Stamp, c: Stamp)
    ensures !Newer(a, a)
    ensures Newer(a, b) || Newer(b, a) || a == b
    ensures Newer(a, b) && Newer(b, c) ==> Newer(a, c)
  {
    IdLessIrreflexive(a.id);
    IdLessTotal(a.id, b.id);
    if IdLess(c.id, b.id) && IdLess(b.id, a.id) {
      IdLessTransitive(c.id, b.id, a.id);
    }
  }

  /** `best` is the newest of `stamps` among those newer than `base`. */
  ghost predicate BestOver(base: Stamp, stamps: set<Stamp>, best: Option<Stamp>) {
    match best
    case None => forall s | s in stamps :: !Newer(s, base)
    case Some(b) => b in stamps && Newer(b, base) && forall s | s in stamps :: !Newer(s, b)
  }

  lemma {:induction false} BestOverUnique(base: Stamp, stamps: set<Stamp>, best1: Option<Stamp>, best2: Option<Stamp>)
    requires BestOver(base, stamps, best1) && BestOver(base, stamps, best2)
    ensures best1 == best2
  {
    if best1.Some? && best2.Some? {
      NewerIsOrder(best1.value, best2.value, base);
    }
  }

  // ---------------------------------------------------------------- merging

  type RelayResult = Result<FetchReport, string>

  type Update = (Coordinate, nat)

  ghost predicate Covers(entries: seq<Update>, u: Update) {
    exists i :: 0 <= i < |entries| && entries[i].0 == u.0 && u.1 <= entries[i].1
  }

  /** One entry per coordinate, with the greatest time given for it. */
  ghost predicate LatestOf(given: set<Update>, entries: seq<Update>) {
    && (forall i, j | 0 <= i < j < |entries| :: entries[i].0 != entries[j].0)
    && (forall i | 0 <= i < |entries| :: entries[i] in given)
    && (forall u {:trigger Covers(entries, u)} | u in given :: Covers(entries, u))
  }

  lemma {:induction false} Covered(given: set<Update>, entries: seq<Update>, u: Update) returns (i: nat)
    requires LatestOf(given, entries) && u in given
    ensures i < |entries| && entries[i].0 == u.0 && u.1 <= entries[i].1
  {
    var holds := Covers(entries, u);
    i :| 0 <= i < |entries| && entries[i].0 == u.0 && u.1 <= entries[i].1;
  }

  method AddUpdate(entries: seq<Update>, u: Update, ghost given: set<Update>) returns (r: seq<Update>)
    requires LatestOf(given, entries)
    ensures LatestOf(given + {u}, r)
  {
    var i := 0;
    while i < |entries| && entries[i].0 != u.0
      invariant i <= |entries| && forall j | 0 <= j < i :: entries[j].0 != u.0
    {
      i := i + 1;
    }
    if i < |entries| {
      r := if u.1 > entries[i].1 then entries[i := u] else entries;
    } else {
      r := entries + [u];
    }
    assert r[i].0 == u.0 && u.1 <= r[i].1;
    forall v | v in given
      ensures Covers(r, v)
    {
      var k := Covered(given, entries, v);
      assert r[k].0 == v.0 && v.1 <= r[k].1;
    }
  }

  ghost function Elements(updates: seq<Update>): set<Update> {
    set u | u in updates
  }

  ghost function UpdatesOf(report: FetchReport): set<Update> {
    Elements(report.updatedAnnouncements)
  }

  /** The union over the reports that arrived of what each contributes. */
  ghost function Union<T(!new)>(reports: seq<RelayResult>, part: FetchReport -> set<T>): set<T> {
    set i, x | 0 <= i < |reports| && reports[i].Ok? && x in part(reports[i].value) :: x
  }

  ghost function StateOf(report: FetchReport): set<Stamp> {
    if report.updatedState.Some? then {report.updatedState.value} else {}
  }

  /** The newest of all, if there is any. */
  ghost predicate Newest(stamps: set<Stamp>, best: Option<Stamp>) {
    match best
    case None => stamps == {}
    case Some(b) => b in stamps && forall s | s in stamps :: !Newer(s, b)
  }

  /** The merged report, described without reference to the order of the reports. */
  ghost predicate Merged(reports: seq<RelayResult>, out: FetchReport) {
    && out.coordinates == Union(reports, (r: FetchReport) => r.coordinates)
    && LatestOf(Union(reports, UpdatesOf), out.updatedAnnouncements)
    && Newest(Union(reports, StateOf), out.updatedState)
    && out.proposals == Union(reports, (r: FetchReport) => r.proposals)
    && out.commits == Union(reports, (r: FetchReport) => r.commits)
    && out.statuses == Union(reports, (r: FetchReport) => r.statuses)
    && out.contributorProfiles == Union(reports, (r: FetchReport) => r.contributorProfiles)
    && out.profileUpdates == Union(reports, (r: FetchReport) => r.profileUpdates)
  }

  lemma {:induction false} UnionSnoc<T(!new)>(reports: seq<RelayResult>, result: RelayResult,
      part: FetchReport -> set<T>)
    ensures Union(reports + [result], part) == Union(reports, part) + (if result.Ok? then part(result.value) else {})
  {
    var all := reports + [result];
    forall x | x in Union(reports, part) + (if result.Ok? then part(result.value) else {})
      ensures x in Union(all, part)
    {
      if x in Union(reports, part) {
        var i :| 0 <= i < |reports| && reports[i].Ok? && x in part(reports[i].value);
        assert all[i] == reports[i];
      } else {
        assert all[|reports|] == result;
      }
    }
  }

  lemma {:induction false} UnionUnordered<T(!new)>(reports1: seq<RelayResult>, reports2: seq<RelayResult>,
      part: FetchReport -> set<T>)
    requires forall r :: r in reports1 ==> r in reports2
    ensures Union(reports1, part) <= Union(reports2, part)
  {
    forall x | x in Union(reports1, part)
      ensures x in Union(reports2, part)
    {
      var i :| 0 <= i < |reports1| && reports1[i].Ok? && x in part(reports1[i].value);
      assert reports1[i] in reports2;
      var j :| 0 <= j < |reports2| && reports2[j] == reports1[i];
    }
  }

  method MergeUpdates(entries: seq<Update>, more: seq<Update>, ghost given: set<Update>) returns (r: seq<Update>)
    requires LatestOf(given, entries)
    ensures LatestOf(given + Elements(more), r)
  {
    r := entries;
    for k := 0 to |more|
      invariant LatestOf(given + Elements(more[..k]), r)
    {
      assert more[..k + 1] == more[..k] + [more[k]];
      assert given + Elements(more[..k + 1]) == given + Elements(more[..k]) + {more[k]};
      r := AddUpdate(r, more[k], given + Elements(more[..k]));
    }
    assert more[..|more|] == more;
  }

  function NewestOf(a: Option<Stamp>, b: Option<Stamp>): Option<Stamp> {
    if b.None? then a
    else if a.None? || Newer(b.value, a.value) then b
    else a
  }

  lemma {:induction false} NewestExtended(stamps: set<Stamp>, a: Option<Stamp>, b: Option<Stamp>)
    requires Newest(stamps, a)
    ensures Newest(stamps + (if b.Some? then {b.value} else {}), NewestOf(a, b))
  {
    if b.Some? {
      NewerIsOrder(b.value, b.value, b.value);
      forall s | s in stamps
        ensures !Newer(s, NewestOf(a, b).value)
      {
        NewerIsOrder(s, b.value, a.value);
        NewerIsOrder(a.value, b.value, a.value);
      }
    }
  }

  /** `consolidate_fetch_reports`: relays that failed are passed over. */
  method ConsolidateFetchReports(reports: seq<RelayResult>) returns (report: FetchReport)
    ensures Merged(reports, report)
  {
    report := EMPTY;
    NoReports();
    for i := 0 to |reports|
      invariant Merged(reports[..i], report)
    {
      hide *;
      assert reports[..i + 1] == reports[..i] + [reports[i]];
      if reports[i].Ok? {
        var next := reports[i].value;
        var entries := MergeUpdates(report.updatedAnnouncements, next.updatedAnnouncements,
          Union(reports[..i], UpdatesOf));
        var merged := FetchReport(
          report.coordinates + next.coordinates, entries, NewestOf(report.updatedState, next.updatedState),
          report.proposals + next.proposals, report.commits + next.commits, report.statuses + next.statuses,
          report.contributorProfiles + next.contributorProfiles, report.profileUpdates + next.profileUpdates);
        MergedOne(reports[..i], report, next, merged);
        report := merged;
      } else {
        MergedFailure(reports[..i], reports[i], report);
      }
    }
    assert reports[..|reports|] == reports;
  }

  lemma {:induction false} NoReports()
    ensures Merged([], EMPTY)
  {}

  lemma {:induction false} MergedFailure(reports: seq<RelayResult>, failed: RelayResult, out: FetchReport)
    requires Merged(reports, out) && failed.Err?
    ensures Merged(reports + [failed], out)
  {
    UnionsSnoc(reports, failed);
  }

  lemma {:induction false} MergedOne(reports: seq<RelayResult>, out: FetchReport, next: FetchReport,
      merged: FetchReport)
    requires Merged(reports, out)
    requires LatestOf(Union(reports, UpdatesOf) + UpdatesOf(next), merged.updatedAnnouncements)
    requires merged.(updatedAnnouncements := []) == FetchReport(
      out.coordinates + next.coordinates, [], NewestOf(out.updatedState, next.updatedState),
      out.proposals + next.proposals, out.commits + next.commits, out.statuses + next.statuses,
      out.contributorProfiles + next.contributorProfiles, out.profileUpdates + next.profileUpdates)
    ensures Merged(reports + [Ok(next)], merged)
  {
    UnionsSnoc(reports, Ok(next));
    NewestExtended(Union(reports, StateOf), out.updatedState, next.updatedState);
  }

  lemma {:induction false} UnionsSnoc(reports: seq<RelayResult>, result: RelayResult)
    ensures var all, ok := reports + [result], result.Ok?;
      && Union(all, (r: FetchReport) => r.coordinates) ==
        Union(reports, (r: FetchReport) => r.coordinates) + (if ok then result.value.coordinates else {})
      && Union(all, UpdatesOf) == Union(reports, UpdatesOf) + (if ok then UpdatesOf(result.value) else {})
      && Union(all, StateOf) == Union(reports, StateOf) + (if ok then StateOf(result.value) else {})
      && Union(all, (r: FetchReport) => r.proposals) ==
        Union(reports, (r: FetchReport) => r.proposals) + (if ok then result.value.proposals else {})
      && Union(all, (r: FetchReport) => r.commits) ==
        Union(reports, (r: FetchReport) => r.commits) + (if ok then result.value.commits else {})
      && Union(all, (r: FetchReport) => r.statuses) ==
        Union(reports, (r: FetchReport) => r.statuses) + (if ok then result.value.statuses else {})
      && Union(all, (r: FetchReport) => r.contributorProfiles)
           == Union(reports, (r: FetchReport) => r.contributorProfiles) +
             (if ok then result.value.contributorProfiles else {})
      && Union(all, (r: FetchReport) => r.profileUpdates)
           == Union(reports, (r: FetchReport) => r.profileUpdates) + (if ok then result.value.profileUpdates else {})
  {
    UnionSnoc(reports, result, (r: FetchReport) => r.coordinates);
    UnionSnoc(reports, result, UpdatesOf);
    UnionSnoc(reports, result, StateOf);
    UnionSnoc(reports, result, (r: FetchReport) => r.proposals);
    UnionSnoc(reports, result, (r: FetchReport) => r.commits);
    UnionSnoc(reports, result, (r: FetchReport) => r.statuses);
    UnionSnoc(reports, result, (r: FetchReport) => r.contributorProfiles);
    UnionSnoc(reports, result, (r: FetchReport) => r.profileUpdates);
  }

  lemma {:induction false} PartInUnion<T(!new)>(reports: seq<RelayResult>, part: FetchReport -> set<T>, i: nat)
    requires i < |reports| && reports[i].Ok?
    ensures part(reports[i].value) <= Union(reports, part)
  {}

  /** The merged report has what each report has. */
  lemma {:induction false} MergedHas(reports: seq<RelayResult>, out: FetchReport, i: nat)
    requires Merged(reports, out) && i < |reports| && reports[i].Ok?
    ensures reports[i].value.coordinates <= out.coordinates && reports[i].value.proposals <= out.proposals
    ensures UpdatesOf(reports[i].value) <= Union(reports, UpdatesOf)
    ensures reports[i].value.contributorProfiles <= out.contributorProfiles
    ensures reports[i].value.profileUpdates <= out.profileUpdates
    ensures reports[i].value.commits <= out.commits && reports[i].value.statuses <= out.statuses
  {
    PartInUnion(reports, (r: FetchReport) => r.commits, i);
    PartInUnion(reports, (r: FetchReport) => r.statuses, i);
    PartInUnion(reports, (r: FetchReport) => r.coordinates, i);
    PartInUnion(reports, (r: FetchReport) => r.proposals, i);
    PartInUnion(reports, UpdatesOf, i);
    PartInUnion(reports, (r: FetchReport) => r.contributorProfiles, i);
    PartInUnion(reports, (r: FetchReport) => r.profileUpdates, i);
  }

  // ---------------------------------------------------------------- order independence

  lemma {:induction false} LatestOfUnique(given: set<Update>, entries1: seq<Update>, entries2: seq<Update>, u: Update)
    requires LatestOf(given, entries1) && LatestOf(given, entries2) && u in entries1
    ensures u in entries2
  {
    var i :| 0 <= i < |entries1| && entries1[i] == u;
    var j := Covered(given, entries2, u);
    var k := Covered(given, entries1, entries2[j]);
    assert k == i;
  }

  lemma {:induction false} UnionOrderIrrelevant<T(!new)>(reports1: seq<RelayResult>, reports2: seq<RelayResult>,
      part: FetchReport -> set<T>)
    requires forall r :: r in reports1 <==> r in reports2
    ensures Union(reports1, part) == Union(reports2, part)
  {
    UnionUnordered(reports1, reports2, part);
    UnionUnordered(reports2, reports1, part);
  }

  /** The same reports in any order, or repeated, merge into the same report; announcement updates
      are the same entries. */
  lemma {:induction false} MergeOrderIrrelevant(reports1: seq<RelayResult>, reports2: seq<RelayResult>,
      out1: FetchReport, out2: FetchReport)
    requires forall r :: r in reports1 <==> r in reports2
    requires Merged(reports1, out1) && Merged(reports2, out2)
    ensures out1.(updatedAnnouncements := []) == out2.(updatedAnnouncements := [])
    ensures forall u :: u in out1.updatedAnnouncements <==> u in out2.updatedAnnouncements
  {
    UnionOrderIrrelevant(reports1, reports2, (r: FetchReport) => r.coordinates);
    UnionOrderIrrelevant(reports1, reports2, UpdatesOf);
    UnionOrderIrrelevant(reports1, reports2, StateOf);
    UnionOrderIrrelevant(reports1, reports2, (r: FetchReport) => r.proposals);
    UnionOrderIrrelevant(reports1, reports2, (r: FetchReport) => r.commits);
    UnionOrderIrrelevant(reports1, reports2, (r: FetchReport) => r.statuses);
    UnionOrderIrrelevant(reports1, reports2, (r: FetchReport) => r.contributorProfiles);
    UnionOrderIrrelevant(reports1, reports2, (r: FetchReport) => r.profileUpdates);
    NewestUnique(Union(reports1, StateOf), out1.updatedState, out2.updatedState);
    forall u | u in out1.updatedAnnouncements
      ensures u in out2.updatedAnnouncements
    {
      LatestOfUnique(Union(reports1, UpdatesOf), out1.updatedAnnouncements, out2.updatedAnnouncements, u);
    }
    forall u | u in out2.updatedAnnouncements
      ensures u in out1.updatedAnnouncements
    {
      LatestOfUnique(Union(reports1, UpdatesOf), out2.updatedAnnouncements, out1.updatedAnnouncements, u);
    }
  }

  lemma {:induction false} NewestUnique(stamps: set<Stamp>, best1: Option<Stamp>, best2: Option<Stamp>)
    requires Newest(stamps, best1) && Newest(stamps, best2)
    ensures best1 == best2
  {
    if best1.Some? && best2.Some? {
      NewerIsOrder(best1.value, best2.value, best1.value);
    }
  }

  /** What every relay saw of the state, in one set. */
  ghost predicate SeenBy(seen: seq<set<Stamp>>, all: set<Stamp>) {
    && (forall i | 0 <= i < |seen| :: seen[i] <= all)
    && (forall s | s in all :: exists i :: 0 <= i < |seen| && s in seen[i])
  }

  ghost predicate ReportsBest(reports: seq<RelayResult>, seen: seq<set<Stamp>>, cached: Stamp)
    requires |seen| == |reports|
  {
    forall i | 0 <= i < |reports| :: ReportBest(reports[i], seen[i], cached)
  }

  ghost predicate ReportBest(report: RelayResult, seen: set<Stamp>, cached: Stamp) {
    if report.Ok? then BestOver(cached, seen, report.value.updatedState) else seen == {}
  }

  lemma {:induction false} NotBeaten(reports: seq<RelayResult>, seen: seq<set<Stamp>>, i: nat, cached: Stamp,
      stamps: set<Stamp>, best: Option<Stamp>, s: Stamp)
    requires |seen| == |reports| && i < |reports| && ReportBest(reports[i], seen[i], cached) && s in seen[i] &&
      Newer(s, cached)
    requires StateOf(reports[i].value) <= stamps && Newest(stamps, best)
    ensures best.Some? && !Newer(s, best.value)
  {
    var own := reports[i].value.updatedState.value;
    assert own in stamps;
    NewerIsOrder(own, s, best.value);
    NewerIsOrder(s, best.value, own);
  }

  /** If each report has the newest state event its relay showed that beats the cached one, the merged
      report has the newest that any relay showed. */
  lemma {:induction false} MergedStateIsBest(reports: seq<RelayResult>, seen: seq<set<Stamp>>, all: set<Stamp>,
      cached: Stamp, out: FetchReport)
    requires |seen| == |reports| && SeenBy(seen, all) && ReportsBest(reports, seen, cached)
    requires Merged(reports, out)
    ensures BestOver(cached, all, out.updatedState)
  {
    var best := out.updatedState;
    forall s | s in all && Newer(s, cached)
      ensures best.Some? && !Newer(s, best.value)
    {
      var i :| 0 <= i < |seen| && s in seen[i];
      NotBeaten(reports, seen, i, cached, Union(reports, StateOf), best, s);
    }
    if best.Some? {
      var i :| 0 <= i < |reports| && reports[i].Ok? && best.value in StateOf(reports[i].value);
      assert ReportBest(reports[i], seen[i], cached);
      forall s | s in all
        ensures !Newer(s, best.value)
      {
        NewerIsOrder(s, best.value, cached);
      }
    }
  }
}
