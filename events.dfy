/** The events API: the store of events and calls, and the operations the controller runs
    against it (merge, close, reopen, create/update, the active-event listing). Times are
    instants in seconds; the organisation's time-zone conversion and the clock are
    parameters. */
module Events {
  import opened Wrappers
  import Queries
  import opened Roster

  /** A radio or phone call; only the owning event matters here. */
  datatype Call = Call(id: int, eventId: int)

  /** A validation error: the property it concerns (none for a whole-request error) and a
      message. */
  datatype SubmitError = SubmitError(property: Option<string>, message: string)

  /** The public projection of an event. */
  datatype EventEntry = EventEntry(id: int, name: Option<string>, openedAt: int, closedAt: Option<int>)

  /** The fields of an event other than its id and roster. */
  datatype Details = Details(
    name: Option<string>,
    openedAt: int,
    closedAt: Option<int>,
    outgoingText: Option<string>,
    outgoingUrl: Option<string>,
    directionsText: Option<string>,
    directionsUrl: Option<string>)

  /** The outcome of a request: the errors found and the data returned, if any. */
  datatype SubmitResult = SubmitResult(errors: seq<SubmitError>, data: Option<EventEntry>)

  const CloseBlocked := "All members must be signed out before an event can be closed"
  const Required := "Required"
  const OutOfRange := "Date invalid or out of range"
  const BeforeOpen := "Must be after open time"

  /** Two days, the age after which a closed event leaves the active listing. */
  const ActiveWindow := 2 * 24 * 60 * 60

  /** 2000-01-01 00:00 and 2100-01-01 00:00 as instants at UTC. The bounds are built from a
      date without a zone, so they are midnight in the server's zone: `offset` is that zone's
      distance from UTC in seconds. */
  function MinDate(offset: int): int { 946684800 - offset }
  function MaxDate(offset: int): int { 4102444800 - offset }

  /** `char.IsWhiteSpace`: the Unicode space separators, the line and paragraph separators,
      and the control characters U+0009 to U+000D and U+0085. */
  predicate IsWhiteSpace(c: char) {
    || ('\t' <= c <= '\r') || c == ' ' || c == '\U{85}' || c == '\U{A0}' || c == '\U{1680}'
    || ('\U{2000}' <= c <= '\U{200A}') || c == '\U{2028}' || c == '\U{2029}'
    || c == '\U{202F}' || c == '\U{205F}' || c == '\U{3000}'
  }

  /** `string.IsNullOrWhiteSpace`. */
  predicate IsNullOrWhiteSpace(s: Option<string>) {
    s.None? || forall k :: 0 <= k < |s.value| ==> IsWhiteSpace(s.value[k])
  }

  /** A destination text field keeps its value unless it is blank, in which case the source
      event's value is taken, blank or not. */
  function PreferDestination(dest: Option<string>, src: Option<string>): (r: Option<string>)
    ensures !IsNullOrWhiteSpace(dest) ==> r == dest
    ensures IsNullOrWhiteSpace(dest) ==> r == src
    ensures IsNullOrWhiteSpace(r) <==> IsNullOrWhiteSpace(dest) && IsNullOrWhiteSpace(src)
  {
    if IsNullOrWhiteSpace(dest) then src else dest
  }

  /** The calls table after every call of the source event has been handed to the
      destination. */
  function Reassigned(calls: seq<Call>, fromId: int, intoId: int): (r: seq<Call>)
    ensures |r| == |calls|
  {
    seq(|calls|, k requires 0 <= k < |calls| =>
      if calls[k].eventId == fromId then calls[k].(eventId := intoId) else calls[k])
  }

  /** Reassignment keeps every call, leaves none on the source event, moves each of the
      source's calls to the destination and touches no other call. */
  lemma ReassignedMovesCalls(calls: seq<Call>, fromId: int, intoId: int)
    requires fromId != intoId
    ensures var r := Reassigned(calls, fromId, intoId);
      && (forall k :: 0 <= k < |r| ==> r[k].id == calls[k].id)
      && (forall k :: 0 <= k < |r| ==> r[k].eventId != fromId)
      && (forall k :: 0 <= k < |r| && calls[k].eventId == fromId ==> r[k].eventId == intoId)
      && (forall k :: 0 <= k < |r| && calls[k].eventId != fromId ==> r[k] == calls[k])
  {
  }

  /** Once the source's calls are handed over, every call still belongs to a remaining
      event. */
  lemma ReassignedOwners(calls: seq<Call>, fromId: int, intoId: int, keys: set<int>)
    requires fromId != intoId && intoId in keys
    requires forall c :: c in calls ==> c.eventId in keys
    ensures forall c :: c in Reassigned(calls, fromId, intoId) ==> c.eventId in keys - {fromId}
  {
    var r := Reassigned(calls, fromId, intoId);
    ReassignedMovesCalls(calls, fromId, intoId);
    forall c | c in r ensures c.eventId in keys - {fromId} {
      var k :| 0 <= k < |r| && r[k] == c;
      assert calls[k] in calls;
    }
  }

  /** The merged roster once saved: every record belongs to the destination event. */
  function Adopt(r: seq<SignIn>, intoId: int): (o: seq<SignIn>)
    ensures |o| == |r|
    ensures forall x :: x in o ==> x.eventId == intoId
    ensures forall k :: 0 <= k < |r| ==> o[k] == r[k].(eventId := intoId)
    ensures Ids(o) == Ids(r) && Members(o) == Members(r)
    ensures DistinctIds(r) ==> DistinctIds(o)
  {
    var o := seq(|r|, k requires 0 <= k < |r| => r[k].(eventId := intoId));
    assert forall k :: 0 <= k < |r| ==> o[k].id == r[k].id && o[k].memberId == r[k].memberId;
    assert Ids(o) == Ids(r) by {
      forall y ensures y in Ids(o) <==> y in Ids(r) {
        if y in Ids(r) {
          var x :| x in r && x.id == y;
          var k :| 0 <= k < |r| && r[k] == x;
          assert o[k].id == y;
        }
        if y in Ids(o) {
          var x :| x in o && x.id == y;
          var k :| 0 <= k < |o| && o[k] == x;
          assert r[k].id == y;
        }
      }
    }
    assert Members(o) == Members(r) by {
      forall y ensures y in Members(o) <==> y in Members(r) {
        if y in Members(r) {
          var x :| x in r && x.memberId == y;
          var k :| 0 <= k < |r| && r[k] == x;
          assert o[k].memberId == y;
        }
        if y in Members(o) {
          var x :| x in o && x.memberId == y;
          var k :| 0 <= k < |o| && o[k] == x;
          assert r[k].memberId == y;
        }
      }
    }
    o
  }

  /** The number of sign-ins still open (no time out). */
  function OpenCount(xs: seq<SignIn>): (n: nat)
    ensures n <= |xs|
    ensures n > 0 <==> exists k :: 0 <= k < |xs| && xs[k].timeOut.None?
    decreases |xs|
  {
    if xs == [] then 0
    else
      var rest := OpenCount(xs[1..]);
      assert forall k :: 0 < k < |xs| ==> xs[k] == xs[1..][k - 1];
      (if xs[0].timeOut.None? then 1 else 0) + rest
  }

  /** An event whose fields the controller updates in place. Its roster is the part of the
      sign-in table that names it (`EventStore.signIns`). */
  class SarEvent {
    const id: int
    var name: Option<string>
    var openedAt: int
    var closedAt: Option<int>
    var outgoingText: Option<string>
    var outgoingUrl: Option<string>
    var directionsText: Option<string>
    var directionsUrl: Option<string>

    constructor (id: int, name: Option<string>, openedAt: int, closedAt: Option<int>)
      ensures this.id == id && State() == Details(name, openedAt, closedAt, None, None, None, None)
    {
      this.id := id;
      this.name := name;
      this.openedAt := openedAt;
      this.closedAt := closedAt;
      outgoingText, outgoingUrl, directionsText, directionsUrl := None, None, None, None;
    }

    /** Takes over the source event's texts where this event's are blank, and its closing
        time where this event has none. */
    method AbsorbDetails(from: SarEvent)
      requires from != this
      modifies this
      ensures State() == MergeDetails(from.State(), old(State()))
    {
      if IsNullOrWhiteSpace(outgoingText) {
        outgoingText := from.outgoingText;
      }
      if IsNullOrWhiteSpace(outgoingUrl) {
        outgoingUrl := from.outgoingUrl;
      }
      if IsNullOrWhiteSpace(directionsText) {
        directionsText := from.directionsText;
      }
      if IsNullOrWhiteSpace(directionsUrl) {
        directionsUrl := from.directionsUrl;
      }
      if closedAt.None? {
        closedAt := from.closedAt;
      }
    }

    function State(): Details
      reads this
    {
      Details(name, openedAt, closedAt, outgoingText, outgoingUrl, directionsText, directionsUrl)
    }

    /** The projection returned to callers. */
    function Entry(): EventEntry
      reads this
    {
      EventEntry(id, name, openedAt, closedAt)
    }
  }

  /** The validation problems of a submitted event, in the order they are reported. */
  function NameErrors(name: Option<string>): seq<SubmitError> {
    if IsNullOrWhiteSpace(name) then [SubmitError(Some("name"), Required)] else []
  }

  predicate InRange(t: int, offset: int) {
    MinDate(offset) <= t <= MaxDate(offset)
  }

  function OpenedErrors(openedAt: int, offset: int): seq<SubmitError> {
    if !InRange(openedAt, offset) then [SubmitError(Some("opened"), OutOfRange)] else []
  }

  function ClosedErrors(openedAt: int, closedAt: Option<int>, offset: int): seq<SubmitError> {
    if closedAt.None? then []
    else if !InRange(closedAt.value, offset) then [SubmitError(Some("closed"), OutOfRange)]
    else if closedAt.value < openedAt then [SubmitError(Some("closed"), BeforeOpen)]
    else []
  }

  /** The submitted times converted to the organisation's zone. */
  function LocalClosed(value: EventEntry, toOrg: int -> int): Option<int> {
    if value.closedAt.None? then None else Some(toOrg(value.closedAt.value))
  }

  /** What makes a submitted event acceptable: a name, an opening time in range, and a
      closing time, if any, in range and not before the opening. */
  predicate Acceptable(value: EventEntry, toOrg: int -> int, offset: int) {
    && !IsNullOrWhiteSpace(value.name)
    && InRange(toOrg(value.openedAt), offset)
    && (value.closedAt.Some? ==>
          InRange(toOrg(value.closedAt.value), offset) && toOrg(value.closedAt.value) >= toOrg(value.openedAt))
  }

  /** Every problem of a submitted event, all reported together. */
  function ValidationErrors(value: EventEntry, toOrg: int -> int, offset: int): (errs: seq<SubmitError>)
    ensures errs == [] <==> Acceptable(value, toOrg, offset)
    ensures |errs| <= 3
    ensures SubmitError(Some("name"), Required) in errs <==> IsNullOrWhiteSpace(value.name)
    ensures SubmitError(Some("opened"), OutOfRange) in errs <==> !InRange(toOrg(value.openedAt), offset)
    ensures SubmitError(Some("closed"), OutOfRange) in errs <==>
      value.closedAt.Some? && !InRange(toOrg(value.closedAt.value), offset)
    ensures SubmitError(Some("closed"), BeforeOpen) in errs <==>
      value.closedAt.Some? && InRange(toOrg(value.closedAt.value), offset) &&
      toOrg(value.closedAt.value) < toOrg(value.openedAt)
    ensures forall e :: e in errs ==> e.property in {Some("name"), Some("opened"), Some("closed")}
  {
    NameErrors(value.name) + OpenedErrors(toOrg(value.openedAt), offset)
      + ClosedErrors(toOrg(value.openedAt), LocalClosed(value, toOrg), offset)
  }

  /** At most one error is reported about the closing time. */
  lemma OneClosedError(value: EventEntry, toOrg: int -> int, offset: int)
    ensures var errs := ValidationErrors(value, toOrg, offset);
      |set k | 0 <= k < |errs| && errs[k].property == Some("closed")| <= 1
  {
    var n := NameErrors(value.name);
    var o := OpenedErrors(toOrg(value.openedAt), offset);
    var c := ClosedErrors(toOrg(value.openedAt), LocalClosed(value, toOrg), offset);
    var errs := n + o + c;
    var m := |n| + |o|;
    var closedAt := set k | 0 <= k < |errs| && errs[k].property == Some("closed");
    forall k | k in closedAt ensures k == m {
      assert k >= m;
    }
    if m in closedAt {
      assert closedAt == {m};
    } else {
      assert closedAt == {};
    }
  }

  /** The validation of a submitted event: each check appends its error, so that every
      problem is reported. */
  method CollectErrors(value: EventEntry, toOrg: int -> int, offset: int) returns (errors: seq<SubmitError>)
    ensures errors == ValidationErrors(value, toOrg, offset)
  {
    errors := [];
    if IsNullOrWhiteSpace(value.name) {
      errors := errors + [SubmitError(Some("name"), Required)];
    }
    var localOpened := toOrg(value.openedAt);
    if localOpened < MinDate(offset) || localOpened > MaxDate(offset) {
      errors := errors + [SubmitError(Some("opened"), OutOfRange)];
    }
    var localClosed := LocalClosed(value, toOrg);
    if localClosed.Some? {
      if localClosed.value < MinDate(offset) || localClosed.value > MaxDate(offset) {
        errors := errors + [SubmitError(Some("closed"), OutOfRange)];
      } else if localClosed.value < localOpened {
        errors := errors + [SubmitError(Some("closed"), BeforeOpen)];
      }
    }
  }

  /** Still listed as active: open, or closed less than two days before `now`. */
  predicate IsActive(e: EventEntry, now: int, toOrg: int -> int) {
    e.closedAt.None? || e.closedAt.value > toOrg(now - ActiveWindow)
  }

  /** The listing order: the most recently opened first. */
  predicate OpenedLater(a: EventEntry, b: EventEntry) {
    a.openedAt >= b.openedAt
  }

  /** The active events, the most recently opened first. */
  function ActiveEvents(rows: seq<EventEntry>, now: int, toOrg: int -> int): (r: seq<EventEntry>)
    ensures forall e :: e in r <==> e in rows && IsActive(e, now, toOrg)
    ensures multiset(r) == multiset(Queries.Filter(rows, e => IsActive(e, now, toOrg)))
    ensures Queries.Sorted(r, OpenedLater)
  {
    var active := Queries.Filter(rows, e => IsActive(e, now, toOrg));
    assert Queries.TotalPreorder(OpenedLater);
    Queries.SortBySorted(active, OpenedLater);
    var r := Queries.SortBy(active, OpenedLater);
    assert forall e :: e in r <==> e in active by {
      forall e ensures e in r <==> e in active {
        assert e in r <==> e in multiset(r);
        assert e in active <==> e in multiset(active);
      }
    }
    r
  }

  /** The destination's fields after a merge: its name and opening time stay; each text
      field stays unless blank; the closing time stays unless missing. */
  function MergeDetails(from: Details, into: Details): (d: Details)
    ensures d.name == into.name && d.openedAt == into.openedAt
    ensures d.closedAt == if into.closedAt.Some? then into.closedAt else from.closedAt
    ensures d.closedAt.None? <==> into.closedAt.None? && from.closedAt.None?
    ensures d.outgoingText == PreferDestination(into.outgoingText, from.outgoingText)
    ensures d.outgoingUrl == PreferDestination(into.outgoingUrl, from.outgoingUrl)
    ensures d.directionsText == PreferDestination(into.directionsText, from.directionsText)
    ensures d.directionsUrl == PreferDestination(into.directionsUrl, from.directionsUrl)
    ensures IsNullOrWhiteSpace(d.outgoingText) <==>
      IsNullOrWhiteSpace(into.outgoingText) && IsNullOrWhiteSpace(from.outgoingText)
    ensures IsNullOrWhiteSpace(d.outgoingUrl) <==>
      IsNullOrWhiteSpace(into.outgoingUrl) && IsNullOrWhiteSpace(from.outgoingUrl)
    ensures IsNullOrWhiteSpace(d.directionsText) <==>
      IsNullOrWhiteSpace(into.directionsText) && IsNullOrWhiteSpace(from.directionsText)
    ensures IsNullOrWhiteSpace(d.directionsUrl) <==>
      IsNullOrWhiteSpace(into.directionsUrl) && IsNullOrWhiteSpace(from.directionsUrl)
  {
    into.(outgoingText := PreferDestination(into.outgoingText, from.outgoingText),
          outgoingUrl := PreferDestination(into.outgoingUrl, from.outgoingUrl),
          directionsText := PreferDestination(into.directionsText, from.directionsText),
          directionsUrl := PreferDestination(into.directionsUrl, from.directionsUrl),
          closedAt := if into.closedAt.None? then from.closedAt else into.closedAt)
  }

  /** A destination whose texts are all filled in and which has a closing time keeps all its
      fields, whatever the source; in particular merging an event's fields into themselves
      changes nothing. */
  lemma MergeDetailsKeepsFilled(from: Details, into: Details)
    ensures into.closedAt.Some? && !IsNullOrWhiteSpace(into.outgoingText)
      && !IsNullOrWhiteSpace(into.outgoingUrl) && !IsNullOrWhiteSpace(into.directionsText)
      && !IsNullOrWhiteSpace(into.directionsUrl)
      ==> MergeDetails(from, into) == into
    ensures MergeDetails(into, into) == into
  {
  }

  /** Merging is idempotent on the fields: merging the same source again changes nothing. */
  lemma MergeDetailsIdempotent(from: Details, into: Details)
    ensures MergeDetails(from, MergeDetails(from, into)) == MergeDetails(from, into)
  {
  }

  /** After a merge, merging an event with an empty roster into the destination keeps
      exactly the destination's records, provided every sign-in ended no earlier than it
      began. */
  lemma RemergeEmptyAfterMerge(fromRoster: seq<SignIn>, intoRoster: seq<SignIn>, intoId: int, r: seq<SignIn>)
    requires DistinctIds(r) && WellTimed(r)
    requires forall x :: x in r <==> x in Adopt(MergedRoster(fromRoster, intoRoster), intoId)
    ensures forall x :: x in MergedRoster([], r) <==> x in r
  {
    var m := MergedRoster(fromRoster, intoRoster);
    MergedRosterOrdered(fromRoster, intoRoster);
    AdoptKeepsOrder(m, intoId);
    RemergeEmpty(r, Adopt(m, intoId));
  }

  /** Re-parenting does not disturb the scan order or the reconciliation. */
  lemma AdoptKeepsOrder(m: seq<SignIn>, intoId: int)
    requires Queries.Sorted(m, KeyLe) && Settled(m)
    ensures Queries.Sorted(Adopt(m, intoId), KeyLe) && Settled(Adopt(m, intoId))
  {
    var c := Adopt(m, intoId);
    forall i, j | 0 <= i < j < |c| ensures KeyLe(c[i], c[j]) {
      assert KeyLe(m[i], m[j]);
    }
    forall i | 0 < i < |c| && c[i - 1].memberId == c[i].memberId
      ensures c[i - 1].timeOut.Some? && c[i - 1].timeOut.value < c[i].timeIn
    {
      assert m[i - 1].memberId == m[i].memberId;
    }
  }

  /** The store's rosters are well formed: each sign-in is on the roster of the event it
      names, and ids are unique within and across rosters. */
  ghost predicate RostersOk(m: map<int, seq<SignIn>>) {
    && (forall id :: id in m ==> forall x :: x in m[id] ==> x.eventId == id)
    && (forall id :: id in m ==> DistinctIds(m[id]))
    && (forall a, b :: a in m && b in m && a != b ==> Ids(m[a]) !! Ids(m[b]))
  }

  /** Replacing two rosters by one roster of the destination, drawn from their ids, keeps the
      rosters well formed. */
  lemma MergeKeepsRosters(m: map<int, seq<SignIn>>, fromId: int, intoId: int, roster: seq<SignIn>)
    requires RostersOk(m) && fromId in m && intoId in m && fromId != intoId
    requires forall x :: x in roster ==> x.eventId == intoId
    requires DistinctIds(roster) && Ids(roster) <= Ids(m[fromId]) + Ids(m[intoId])
    ensures RostersOk((m - {fromId})[intoId := roster])
  {
    var m' := (m - {fromId})[intoId := roster];
    forall a, b | a in m' && b in m' && a != b ensures Ids(m'[a]) !! Ids(m'[b]) {
      if a == intoId {
        assert Ids(m[fromId]) !! Ids(m[b]) && Ids(m[intoId]) !! Ids(m[b]);
      } else if b == intoId {
        assert Ids(m[fromId]) !! Ids(m[a]) && Ids(m[intoId]) !! Ids(m[a]);
      } else {
        assert m'[a] == m[a] && m'[b] == m[b];
      }
    }
  }

  /** The sign-in table after merging the event `fromId` into `intoId`: the two rosters are
      reconciled, the surviving records are re-parented to `intoId`, and no record is left
      under `fromId`. Every other roster is untouched. */
  method MergeSignIns(table: map<int, seq<SignIn>>, fromId: int, intoId: int)
    returns (t: map<int, seq<SignIn>>)
    requires RostersOk(table) && fromId in table && intoId in table && fromId != intoId
    ensures RostersOk(t)
    ensures t.Keys == table.Keys - {fromId}
    ensures forall id :: id in t && id != intoId ==> t[id] == table[id]
    ensures forall x :: x in t[intoId] <==> x in Adopt(MergedRoster(table[fromId], table[intoId]), intoId)
  {
    var fromRoster, intoRoster := table[fromId], table[intoId];
    DistinctConcat(fromRoster, intoRoster);
    MergedRosterIds(fromRoster, intoRoster);
    var roster := MergeRosters(fromRoster, intoRoster, intoId);
    AdoptSameRecords(roster, MergedRoster(fromRoster, intoRoster), intoId);
    var adopted := Adopt(roster, intoId);
    MergeKeepsRosters(table, fromId, intoId, adopted);
    t := (table - {fromId})[intoId := adopted];
  }

  /** A new event with an empty roster keeps the rosters well formed. */
  lemma AddKeepsRosters(m: map<int, seq<SignIn>>, id: int)
    requires RostersOk(m) && id !in m
    ensures RostersOk(m[id := []])
  {
    var m' := m[id := []];
    assert Ids([]) == {};
    forall a, b | a in m' && b in m' && a != b ensures Ids(m'[a]) !! Ids(m'[b]) {
      if a != id && b != id {
        assert m'[a] == m[a] && m'[b] == m[b];
      }
    }
  }

  /** The events table, the sign-in table grouped by the event each sign-in names, and the
      calls table, with the relations the database keeps. */
  class EventStore {
    var events: map<int, SarEvent>
    var signIns: map<int, seq<SignIn>>
    var calls: seq<Call>

    /** Events are keyed by their id; every event has a roster and every roster an event;
        the rosters are well formed; every call belongs to a stored event. */
    ghost predicate Valid()
      reads this, events.Values
    {
      && (forall id :: id in events ==> events[id].id == id)
      && signIns.Keys == events.Keys
      && RostersOk(signIns)
      && (forall c :: c in calls ==> c.eventId in events)
    }

    constructor ()
      ensures Valid() && events == map[] && signIns == map[] && calls == []
    {
      events := map[];
      signIns := map[];
      calls := [];
    }

    /** Merges the event `fromId` into the event `intoId`: its calls move over, the two
        rosters are reconciled into the destination, the destination's blank texts and missing
        closing time are taken from the source, and the source event is deleted with what is
        left of its roster. */
    method Merge(fromId: int, intoId: int) returns (r: SubmitResult)
      requires Valid()
      requires fromId in events && intoId in events && fromId != intoId
      modifies this, events[intoId]
      ensures Valid()
      ensures r == SubmitResult([], None)
      ensures events == old(events) - {fromId}
      ensures calls == Reassigned(old(calls), fromId, intoId)
      ensures events[intoId].State() == MergeDetails(old(events[fromId].State()), old(events[intoId].State()))
      ensures signIns.Keys == old(signIns).Keys - {fromId}
      ensures forall id :: id in signIns && id != intoId ==> signIns[id] == old(signIns[id])
      ensures forall x :: x in signIns[intoId] <==>
        x in Adopt(MergedRoster(old(signIns[fromId]), old(signIns[intoId])), intoId)
    {
      var from := events[fromId];
      var into := events[intoId];

      ReassignCalls(fromId, intoId);
      signIns := MergeSignIns(signIns, fromId, intoId);
      into.AbsorbDetails(from);
      ReassignedOwners(old(calls), fromId, intoId, old(events).Keys);
      events := events - {fromId};
      r := SubmitResult([], None);
    }

    /** Hands every call of the event `fromId` to the event `intoId`. */
    method ReassignCalls(fromId: int, intoId: int)
      modifies this
      ensures calls == Reassigned(old(calls), fromId, intoId)
      ensures events == old(events) && signIns == old(signIns)
    {
      var moved := calls;
      for i := 0 to |moved|
        invariant |moved| == |calls|
        invariant forall k :: 0 <= k < i ==> moved[k] == Reassigned(calls, fromId, intoId)[k]
        invariant forall k :: i <= k < |moved| ==> moved[k] == calls[k]
      {
        if moved[i].eventId == fromId {
          moved := moved[i := moved[i].(eventId := intoId)];
        }
      }
      calls := moved;
    }

    /** Closes an event, unless a member is still signed in to it. */
    method Close(id: int, now: int, toOrg: int -> int) returns (r: SubmitResult)
      requires Valid() && id in events
      modifies events[id]
      ensures Valid()
      ensures r.data.None?
      ensures r.errors == [] <==> forall x :: x in signIns[id] ==> x.timeOut.Some?
      ensures r.errors != [] ==> r.errors == [SubmitError(None, CloseBlocked)]
      ensures events[id].State() ==
        old(events[id].State()).(closedAt := if r.errors == [] then Some(toOrg(now)) else old(events[id].closedAt))
    {
      r := SubmitResult([], None);
      var rosterCount := OpenCount(signIns[id]);
      if rosterCount > 0 {
        r := r.(errors := r.errors + [SubmitError(None, CloseBlocked)]);
      }
      if r.errors == [] {
        var e := events[id];
        e.closedAt := Some(toOrg(now));
      }
    }

    /** Reopens an event, whatever its roster. */
    method Reopen(id: int) returns (r: SubmitResult)
      requires Valid() && id in events
      modifies events[id]
      ensures Valid()
      ensures r == SubmitResult([], None)
      ensures events[id].State() == old(events[id].State()).(closedAt := None)
    {
      r := SubmitResult([], None);
      var e := events[id];
      e.closedAt := None;
    }

    /** Creates (`isNew`) or updates an event from a submitted entry. All validation errors are
        collected; when there is any, nothing is saved. A new event gets the id `newId` the
        database assigns. */
    method SaveEvent(value: EventEntry, isNew: bool, toOrg: int -> int, offset: int, newId: int)
      returns (r: SubmitResult)
      requires Valid()
      requires isNew ==> newId !in events
      requires !isNew && Acceptable(value, toOrg, offset) ==> value.id in events
      modifies this, if !isNew && value.id in events then {events[value.id]} else {}
      ensures Valid()
      ensures r.errors == ValidationErrors(value, toOrg, offset)
      ensures calls == old(calls)
      ensures r.errors != [] ==> r.data.None? && events == old(events) && signIns == old(signIns)
      ensures r.errors != [] && !isNew && value.id in events ==>
        events[value.id].State() == old(events[value.id].State())
      ensures r.errors == [] && isNew ==>
        && newId in events && fresh(events[newId])
        && events == old(events)[newId := events[newId]]
        && signIns == old(signIns)[newId := []]
        && events[newId].State() ==
             Details(value.name, toOrg(value.openedAt), LocalClosed(value, toOrg), None, None, None, None)
      ensures r.errors == [] && !isNew ==>
        && events == old(events) && signIns == old(signIns)
        && events[value.id].State() == old(events[value.id].State()).(
             name := value.name, openedAt := toOrg(value.openedAt), closedAt := LocalClosed(value, toOrg))
      ensures r.errors == [] ==>
        var id := if isNew then newId else value.id;
        && r.data == Some(events[id].Entry())
        && events[id].Entry() == EventEntry(id, value.name, toOrg(value.openedAt), LocalClosed(value, toOrg))
    {
      var errors := CollectErrors(value, toOrg, offset);
      var localOpened := toOrg(value.openedAt);
      var localClosed := LocalClosed(value, toOrg);
      r := SubmitResult(errors, None);

      if errors == [] {
        var evt: SarEvent;
        if isNew {
          evt := new SarEvent(newId, value.name, localOpened, localClosed);
          AddKeepsRosters(signIns, newId);
          events := events[newId := evt];
          signIns := signIns[newId := []];
        } else {
          evt := events[value.id];
        }
        if value.name != evt.name { evt.name := value.name; }
        if localOpened != evt.openedAt { evt.openedAt := localOpened; }
        if localClosed != evt.closedAt { evt.closedAt := localClosed; }
        r := r.(data := Some(evt.Entry()));
      }
    }
  }

  /** Adopting two rosters with the same records gives rosters with the same records. */
  lemma AdoptSameRecords(roster: seq<SignIn>, merged: seq<SignIn>, intoId: int)
    requires forall x :: x in roster <==> x in merged
    ensures Members(Adopt(roster, intoId)) == Members(merged)
    ensures forall x :: x in Adopt(roster, intoId) <==> x in Adopt(merged, intoId)
  {
    assert Members(roster) == Members(merged);
    var a, b := Adopt(roster, intoId), Adopt(merged, intoId);
    forall x ensures x in a <==> x in b {
      if x in a {
        var k :| 0 <= k < |roster| && x == roster[k].(eventId := intoId);
        assert roster[k] in merged;
        var j :| 0 <= j < |merged| && merged[j] == roster[k];
        assert x == merged[j].(eventId := intoId);
      }
      if x in b {
        var k :| 0 <= k < |merged| && x == merged[k].(eventId := intoId);
        assert merged[k] in roster;
        var j :| 0 <= j < |roster| && roster[j] == merged[k];
        assert x == roster[j].(eventId := intoId);
      }
    }
  }
}
