/**
 * The dashboard of core/views.py: the pending-registration total and the
 * recent-activity feed built from the audit stamps of SchoolStaff and
 * SchoolStaffAssignment rows.
 */
module Dashboard {
  import opened Wrappers
  import opened Registry
  import opened Registrations
  import opened Sorting

  // ---- pending registration KPIs --------------------------------------------

  function CountStatus(regs: seq<Registration>, s: Status): (r: nat)
    ensures r <= |regs|
  {
    if regs == [] then 0
    else (if regs[0].status == s then 1 else 0) + CountStatus(regs[1..], s)
  }

  /** `pending_reg_total`: draft, submitted, under-review and rejected counts added up. */
  function PendingTotal(regs: seq<Registration>): nat {
    CountStatus(regs, Draft) + CountStatus(regs, Submitted) + CountStatus(regs, UnderReview) + CountStatus(regs, Rejected)
  }

  /** The number of registrations still in progress. */
  function CountInProgress(regs: seq<Registration>): (r: nat)
    ensures r <= |regs|
  {
    if regs == [] then 0
    else (if InProgress(regs[0].status) then 1 else 0) + CountInProgress(regs[1..])
  }

  /** The four status counts add up to the number of registrations in progress: none is counted twice, none is missed. */
  lemma {:induction false} PendingTotalCountsInProgress(regs: seq<Registration>)
    ensures PendingTotal(regs) == CountInProgress(regs)
    ensures PendingTotal(regs) + CountStatus(regs, Approved) == |regs|
  {
    if regs != [] {
      PendingTotalCountsInProgress(regs[1..]);
    }
  }

  // ---- recent activity ------------------------------------------------------

  /** The user an audit field points at, as the feed displays it. */
  datatype Person = Person(firstName: string, lastName: string, email: string, username: string)

  /** A row of an audited table: its key, its two timestamps and its two audit users, each possibly unset. */
  datatype Stamped = Stamped(
    pk: nat,
    createdAt: Option<int>,
    lastUpdatedAt: Option<int>,
    createdBy: Option<Person>,
    lastUpdatedBy: Option<Person>)

  datatype EventAction = Updated | Created | Activity

  /** An entry of the feed; `link` is the primary key the detail link is built from. */
  datatype Event = Event(when: int, entity: string, action: EventAction, actor: Option<string>, link: Option<nat>)

  /** Updated when modified after creation, Created when only the creation time tells, Activity without a creation time. */
  function ActionOf(row: Stamped): (r: EventAction)
    ensures r == Updated <==>
      (row.createdAt.Some? && row.lastUpdatedAt.Some? && row.lastUpdatedAt.value > row.createdAt.value)
    ensures r == Activity <==> row.createdAt.None?
  {
    if row.createdAt.Some? && row.lastUpdatedAt.Some? && row.lastUpdatedAt.value > row.createdAt.value then Updated
    else if row.createdAt.Some? then Created
    else Activity
  }

  /** The event time: the last update, else the creation. */
  function WhenOf(row: Stamped): Option<int> {
    if row.lastUpdatedAt.Some? then row.lastUpdatedAt else row.createdAt
  }

  /** The actor's display: full name, else email, else username. */
  function ByDisplay(person: Person): (r: string)
    ensures FullName(person.firstName, person.lastName) != "" ==> r == FullName(person.firstName, person.lastName)
    ensures FullName(person.firstName, person.lastName) == "" && person.email != "" ==> r == person.email
    ensures FullName(person.firstName, person.lastName) == "" && person.email == "" ==> r == person.username
  {
    var full := FullName(person.firstName, person.lastName);
    if full != "" then full else if person.email != "" then person.email else person.username
  }

  /** The event a row contributes: none without a time; the detail link only for linked tables. */
  function EventOf(row: Stamped, entity: string, linked: bool): (r: Option<Event>)
    ensures r.Some? <==> row.lastUpdatedAt.Some? || row.createdAt.Some?
    ensures r.Some? ==> Some(r.value.when) == WhenOf(row) && r.value.entity == entity && r.value.action == ActionOf(row)
    ensures r.Some? ==> (r.value.link.Some? <==> linked) && (linked ==> r.value.link == Some(row.pk))
    ensures r.Some? ==> (r.value.actor.Some? <==> row.lastUpdatedBy.Some? || row.createdBy.Some?)
  {
    match WhenOf(row)
    case None => None
    case Some(when) =>
      var actor := if row.lastUpdatedBy.Some? then row.lastUpdatedBy else row.createdBy;
      var display := if actor.Some? then Some(ByDisplay(actor.value)) else None;
      Some(Event(when, entity, ActionOf(row), display, if linked then Some(row.pk) else None))
  }

  /** `add_events_from_queryset`: one event per timed row, in row order. */
  function EventsFrom(rows: seq<Stamped>, entity: string, linked: bool): (r: seq<Event>)
    ensures |r| <= |rows|
    ensures forall e :: e in r <==> exists row :: row in rows && EventOf(row, entity, linked) == Some(e)
  {
    if rows == [] then []
    else
      var rest := EventsFrom(rows[1..], entity, linked);
      assert forall row :: row in rows <==> row == rows[0] || row in rows[1..];
      match EventOf(rows[0], entity, linked)
      case None => rest
      case Some(e) => [e] + rest
  }

  function NewestFirst(e: Event): (int, int) {
    (-e.when, 0)
  }

  /** In a newest-first order, whatever is past the first `n` is no newer than anything among them. */
  lemma SortedPrefixIsNewest(sorted: seq<Event>, n: nat, e: Event)
    requires SortedBy(sorted, NewestFirst) && n <= |sorted| && e in sorted && e !in sorted[..n]
    ensures forall x :: x in sorted[..n] ==> x.when >= e.when
  {
    var k :| 0 <= k < |sorted| && sorted[k] == e;
    forall x | x in sorted[..n]
      ensures x.when >= e.when
    {
      var j :| 0 <= j < n && sorted[..n][j] == x;
      assert sorted[j] == x;
      assert KeyLe(NewestFirst(sorted[j]), NewestFirst(sorted[k]));
    }
  }

  /** A prefix holds each element no more often than the whole sequence. */
  lemma PrefixWithinMultiset(s: seq<Event>, n: nat)
    requires n <= |s|
    ensures multiset(s[..n]) <= multiset(s)
  {
    assert s == s[..n] + s[n..];
  }

  /** The first `n` events in newest-first order: sorted, drawn from `events`, and no older than any event past them. */
  lemma NewestPrefix(events: seq<Event>, n: nat)
    requires n <= |events|
    ensures var p := SortBy(events, NewestFirst)[..n];
            (forall i, j :: 0 <= i < j < |p| ==> p[i].when >= p[j].when)
            && multiset(p) <= multiset(events)
            && (forall e :: e in p ==> e in events)
            && forall e :: e in events && e !in p ==> n < |events| && forall x :: x in p ==> x.when >= e.when
  {
    var sorted := SortBy(events, NewestFirst);
    assert forall i, j :: 0 <= i < j < n ==> KeyLe(NewestFirst(sorted[i]), NewestFirst(sorted[j]));
    NewestPrefixWithin(events, n);
    NewestPrefixKeepsNewest(events, n);
  }

  /** A prefix of the sorted events holds each event at most as often as the events do. */
  lemma NewestPrefixWithin(events: seq<Event>, n: nat)
    requires n <= |events|
    ensures multiset(SortBy(events, NewestFirst)[..n]) <= multiset(events)
    ensures forall e :: e in SortBy(events, NewestFirst)[..n] ==> e in events
  {
    var p := SortBy(events, NewestFirst)[..n];
    PrefixWithinMultiset(SortBy(events, NewestFirst), n);
    forall e | e in p
      ensures e in events
    {
      assert e in multiset(p);
    }
  }

  /** An event the prefix leaves out is no newer than any it keeps, and something was left out only when the prefix is short. */
  lemma NewestPrefixKeepsNewest(events: seq<Event>, n: nat)
    requires n <= |events|
    ensures forall e :: e in events && e !in SortBy(events, NewestFirst)[..n] ==>
      n < |events| && forall x :: x in SortBy(events, NewestFirst)[..n] ==> x.when >= e.when
  {
    var sorted := SortBy(events, NewestFirst);
    forall e | e in events && e !in sorted[..n]
      ensures n < |events| && forall x :: x in sorted[..n] ==> x.when >= e.when
    {
      SortBySameElements(events, NewestFirst, e);
      assert sorted[..|sorted|] == sorted;
      SortedPrefixIsNewest(sorted, n, e);
    }
  }

  /**
   * The newest ten events, newest first, each shown no more often than it
   * occurs; an event left out is no newer than any event kept.
   */
  function LatestEvents(events: seq<Event>): (r: seq<Event>)
    ensures |r| == if |events| < 10 then |events| else 10
    ensures forall i, j :: 0 <= i < j < |r| ==> r[i].when >= r[j].when
    ensures multiset(r) <= multiset(events)
    ensures forall e :: e in r ==> e in events
    ensures forall e :: e in events && e !in r ==> |r| == 10 && forall x :: x in r ==> x.when >= e.when
  {
    var n := if |events| < 10 then |events| else 10;
    NewestPrefix(events, n);
    SortBy(events, NewestFirst)[..n]
  }

  /**
   * `recent_events`: events from the SchoolStaff rows (linked to their detail
   * page) and the assignment rows (not linked), the newest ten of them.
   */
  function RecentEvents(staffRows: seq<Stamped>, assignmentRows: seq<Stamped>): (r: seq<Event>)
    ensures |r| <= 10
    ensures multiset(r) <= multiset(EventsFrom(staffRows, "SchoolStaff", true)
                                    + EventsFrom(assignmentRows, "SchoolStaff assignment", false))
    ensures forall e :: e in r ==>
      (exists row :: row in staffRows && EventOf(row, "SchoolStaff", true) == Some(e))
      || (exists row :: row in assignmentRows && EventOf(row, "SchoolStaff assignment", false) == Some(e))
    ensures forall i, j :: 0 <= i < j < |r| ==> r[i].when >= r[j].when
  {
    var staffEvents := EventsFrom(staffRows, "SchoolStaff", true);
    var assignmentEvents := EventsFrom(assignmentRows, "SchoolStaff assignment", false);
    LatestEvents(staffEvents + assignmentEvents)
  }

  /** A timed row is dropped from the feed only when at least ten events are at least as new as it. */
  lemma TimedRowIsShownUnlessCrowdedOut(staffRows: seq<Stamped>, assignmentRows: seq<Stamped>, row: Stamped)
    requires row in staffRows && WhenOf(row).Some?
    ensures var e := EventOf(row, "SchoolStaff", true).value;
            var r := RecentEvents(staffRows, assignmentRows);
            e in r || (|r| == 10 && forall x :: x in r ==> x.when >= e.when)
  {
    var e := EventOf(row, "SchoolStaff", true).value;
    var events := EventsFrom(staffRows, "SchoolStaff", true) + EventsFrom(assignmentRows, "SchoolStaff assignment", false);
    assert e in EventsFrom(staffRows, "SchoolStaff", true);
    assert e in events;
  }

  /** Likewise for an assignment row: it is dropped only when at least ten events are at least as new as it. */
  lemma TimedAssignmentRowIsShownUnlessCrowdedOut(staffRows: seq<Stamped>, assignmentRows: seq<Stamped>, row: Stamped)
    requires row in assignmentRows && WhenOf(row).Some?
    ensures var e := EventOf(row, "SchoolStaff assignment", false).value;
            var r := RecentEvents(staffRows, assignmentRows);
            e in r || (|r| == 10 && forall x :: x in r ==> x.when >= e.when)
  {
    var e := EventOf(row, "SchoolStaff assignment", false).value;
    var events := EventsFrom(staffRows, "SchoolStaff", true) + EventsFrom(assignmentRows, "SchoolStaff assignment", false);
    assert e in EventsFrom(assignmentRows, "SchoolStaff assignment", false);
    assert e in events;
  }
}
