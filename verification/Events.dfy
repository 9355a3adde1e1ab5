/** Nostr events, with the lookups the source makes in their tags. */
module Events {
  import opened Wrappers

  type Tag = seq<string>
  type EventId = string
  type PublicKey = string

  datatype Kind = GitPatch | GitRepoAnnouncement | GitState | GitStatus | Metadata | RelayList | EventDeletion
                | OtherKind

  datatype Event = Event(id: EventId, pubkey: PublicKey, createdAt: nat, kind: Kind, tags: seq<Tag>, content: string)

  /** Time and id of an event. */
  datatype Stamp = Stamp(createdAt: nat, id: EventId)

  /** Some tag has `value` as its second element. */
  predicate Says(tags: seq<Tag>, value: string) {
    tags != [] && ((|tags[0]| > 1 && tags[0][1] == value) || Says(tags[1..], value))
  }

  predicate IsPatchSetRoot(e: Event) {
    e.kind == GitPatch && Says(e.tags, "root")
  }

  predicate IsRevisionRoot(e: Event) {
    e.kind == GitPatch && Says(e.tags, "revision-root")
  }

  predicate IsCoverLetter(e: Event) {
    e.kind == GitPatch && Says(e.tags, "root") && Says(e.tags, "cover-letter")
  }

  /** The first tag named `name`. */
  function FirstNamed(tags: seq<Tag>, name: string): (r: Option<Tag>)
    ensures r.Some? ==> r.value in tags && r.value != [] && r.value[0] == name
  {
    if tags == [] then None
    else if tags[0] != [] && tags[0][0] == name then Some(tags[0])
    else FirstNamed(tags[1..], name)
  }

  /** `tag_value`; the source panics on a bare tag, which no event of the model has. */
  function TagValue(tags: seq<Tag>, name: string): Option<string> {
    match FirstNamed(tags, name)
    case Some(tag) => if |tag| > 1 then Some(tag[1]) else None
    case None => None
  }

  /** The first tag with the marker in its fourth place. */
  function FirstMarked(tags: seq<Tag>, marker: string): (r: Option<Tag>)
    ensures r.Some? ==> r.value in tags && |r.value| > 3 && r.value[3] == marker
  {
    if tags == [] then None
    else if |tags[0]| > 3 && tags[0][3] == marker then Some(tags[0])
    else FirstMarked(tags[1..], marker)
  }

  /** `get_event_parent_id` */
  function ParentId(e: Event): Option<EventId> {
    match FirstMarked(e.tags, "reply")
    case Some(tag) => Some(tag[1])
    case None =>
      match FirstMarked(e.tags, "root")
      case Some(tag) => Some(tag[1])
      case None => None
  }

  /** Some tag named `name` has the value. */
  predicate Tagged(tags: seq<Tag>, name: string, value: string) {
    tags != [] && ((|tags[0]| > 1 && tags[0][0] == name && tags[0][1] == value) || Tagged(tags[1..], name, value))
  }

  /** Some `e` tag names the event `id`. */
  predicate Mentions(e: Event, id: EventId) {
    Tagged(e.tags, "e", id)
  }

  lemma {:induction false} SaysAt(tags: seq<Tag>, value: string, i: nat)
    requires i < |tags| && |tags[i]| > 1 && tags[i][1] == value
    ensures Says(tags, value)
  {
    if i > 0 {
      SaysAt(tags[1..], value, i - 1);
    }
  }

  lemma {:induction false} TaggedAt(tags: seq<Tag>, name: string, value: string, i: nat)
    requires i < |tags| && |tags[i]| > 1 && tags[i][0] == name && tags[i][1] == value
    ensures Tagged(tags, name, value)
  {
    if i > 0 {
      TaggedAt(tags[1..], name, value, i - 1);
    }
  }

  /** No tag has `value` as its second element. */
  ghost predicate Silent(tags: seq<Tag>, value: string) {
    forall i | 0 <= i < |tags| && |tags[i]| > 1 :: tags[i][1] != value
  }

  lemma {:induction false} SilentSaysNot(tags: seq<Tag>, value: string)
    requires Silent(tags, value)
    ensures !Says(tags, value)
  {
    if tags != [] {
      SilentSaysNot(tags[1..], value);
    }
  }

  lemma {:induction false} FirstNamedConcat(a: seq<Tag>, b: seq<Tag>, name: string)
    ensures FirstNamed(a + b, name) == if FirstNamed(a, name).Some? then FirstNamed(a, name) else FirstNamed(b, name)
  {
    if a == [] {
      assert a + b == b;
    } else {
      FirstNamedConcat(a[1..], b, name);
      assert (a + b)[1..] == a[1..] + b;
    }
  }

  lemma {:induction false} FirstMarkedConcat(a: seq<Tag>, b: seq<Tag>, marker: string)
    ensures FirstMarked(a + b, marker) == if FirstMarked(a, marker).Some? then FirstMarked(a, marker)
      else FirstMarked(b, marker)
  {
    if a == [] {
      assert a + b == b;
    } else {
      FirstMarkedConcat(a[1..], b, marker);
      assert (a + b)[1..] == a[1..] + b;
    }
  }

  lemma {:induction false} SaysConcat(a: seq<Tag>, b: seq<Tag>, value: string)
    ensures Says(a + b, value) <==> Says(a, value) || Says(b, value)
  {
    if a == [] {
      assert a + b == b;
    } else {
      SaysConcat(a[1..], b, value);
      assert (a + b)[1..] == a[1..] + b;
    }
  }

  lemma {:induction false} TaggedConcat(a: seq<Tag>, b: seq<Tag>, name: string, value: string)
    ensures Tagged(a + b, name, value) <==> Tagged(a, name, value) || Tagged(b, name, value)
  {
    if a == [] {
      assert a + b == b;
    } else {
      TaggedConcat(a[1..], b, name, value);
      assert (a + b)[1..] == a[1..] + b;
    }
  }

  lemma {:induction false} NotTagged(tags: seq<Tag>, name: string, value: string)
    requires forall i | 0 <= i < |tags| :: |tags[i]| > 1 ==> tags[i][0] != name
    ensures !Tagged(tags, name, value)
  {
    if tags != [] {
      NotTagged(tags[1..], name, value);
    }
  }

  lemma {:induction false} NotNamed(tags: seq<Tag>, name: string)
    requires forall i | 0 <= i < |tags| :: |tags[i]| > 0 ==> tags[i][0] != name
    ensures FirstNamed(tags, name) == None
  {
    if tags != [] {
      NotNamed(tags[1..], name);
    }
  }

  lemma {:induction false} NotMarked(tags: seq<Tag>, marker: string)
    requires forall i | 0 <= i < |tags| :: |tags[i]| > 3 ==> tags[i][3] != marker
    ensures FirstMarked(tags, marker) == None
  {
    if tags != [] {
      NotMarked(tags[1..], marker);
    }
  }

  // ---------------------------------------------------------------- sorting by time

  function InsertByTime(sorted: seq<Event>, e: Event): seq<Event> {
    if sorted == [] || sorted[|sorted| - 1].createdAt <= e.createdAt then sorted + [e]
    else InsertByTime(sorted[..|sorted| - 1], e) + [sorted[|sorted| - 1]]
  }

  /** `sort_by_key(created_at)`: stable, oldest first. */
  function SortByTime(events: seq<Event>): seq<Event> {
    if events == [] then [] else InsertByTime(SortByTime(events[..|events| - 1]), events[|events| - 1])
  }

  ghost predicate InTimeOrder(events: seq<Event>) {
    forall i, j | 0 <= i < j < |events| :: events[i].createdAt <= events[j].createdAt
  }

  function At(events: seq<Event>, time: nat): seq<Event> {
    if events == [] then []
    else
      var last := events[|events| - 1];
      At(events[..|events| - 1], time) + (if last.createdAt == time then [last] else [])
  }

  lemma {:induction false} InsertByTimeSorts(sorted: seq<Event>, e: Event)
    requires InTimeOrder(sorted)
    ensures var r := InsertByTime(sorted, e);
      && InTimeOrder(r) && |r| == |sorted| + 1
      && (forall x :: x in r <==> x in sorted || x == e)
  {
    if sorted != [] && sorted[|sorted| - 1].createdAt > e.createdAt {
      var front, last := sorted[..|sorted| - 1], sorted[|sorted| - 1];
      InsertByTimeSorts(front, e);
      assert sorted == front + [last];
      var r := InsertByTime(front, e);
      forall i | 0 <= i < |r|
        ensures r[i].createdAt <= last.createdAt
      {
        assert r[i] in r;
      }
    }
  }

  lemma {:induction false} AtSnoc(events: seq<Event>, e: Event, time: nat)
    ensures At(events + [e], time) == At(events, time) + (if e.createdAt == time then [e] else [])
  {
    assert (events + [e])[..|events|] == events;
  }

  lemma {:induction false} InsertByTimeStable(sorted: seq<Event>, e: Event, time: nat)
    ensures At(InsertByTime(sorted, e), time) == At(sorted, time) + (if e.createdAt == time then [e] else [])
  {
    if sorted != [] && sorted[|sorted| - 1].createdAt > e.createdAt {
      var front, last := sorted[..|sorted| - 1], sorted[|sorted| - 1];
      InsertByTimeStable(front, e, time);
      AtSnoc(InsertByTime(front, e), last, time);
      if last.createdAt == time {
        assert At(front, time) + [] == At(front, time);
      }
    } else {
      AtSnoc(sorted, e, time);
    }
  }

  lemma {:induction false} SortByTimeStable(events: seq<Event>, time: nat)
    ensures At(SortByTime(events), time) == At(events, time)
  {
    if events != [] {
      var front, last := events[..|events| - 1], events[|events| - 1];
      assert events == front + [last];
      SortByTimeStable(front, time);
      hide InsertByTime, At;
      InsertByTimeStable(SortByTime(front), last, time);
      AtSnoc(front, last, time);
    }
  }

  lemma {:induction false} SortByTimeOrders(events: seq<Event>)
    ensures InTimeOrder(SortByTime(events)) && |SortByTime(events)| == |events|
    ensures forall x :: x in SortByTime(events) <==> x in events
  {
    if events != [] {
      var front, last := events[..|events| - 1], events[|events| - 1];
      assert events == front + [last];
      SortByTimeOrders(front);
      hide InsertByTime, InTimeOrder;
      InsertByTimeSorts(SortByTime(front), last);
    }
  }

  /** Sorting by time is stable. */
  lemma {:induction false} SortByTimeSorts(events: seq<Event>)
    ensures InTimeOrder(SortByTime(events)) && |SortByTime(events)| == |events|
    ensures forall x :: x in SortByTime(events) <==> x in events
    ensures forall time :: At(SortByTime(events), time) == At(events, time)
  {
    hide *;
    SortByTimeOrders(events);
    forall time: nat
      ensures At(SortByTime(events), time) == At(events, time)
    {
      SortByTimeStable(events, time);
    }
  }

  /** The answer to a query: the matching events, in no particular order. */
  method InAnyOrder(matching: set<Event>) returns (events: seq<Event>)
    ensures forall e :: e in events <==> e in matching
  {
    events := [];
    var todo := matching;
    while todo != {}
      invariant forall e :: e in events <==> e in matching - todo
      invariant todo <= matching
    {
      var e :| e in todo;
      events := events + [e];
      todo := todo - {e};
    }
  }
}
