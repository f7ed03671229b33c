/** Events, registrations and volunteer sign-ups, backend/app/models/event_model.py.
    Times are whole numbers on one clock. */
module EventModel {
  import opened Outcomes
  import opened ObjectIds
  import opened Collections

  datatype Event = Event(
    title: string,
    description: string,
    start_time: int,
    end_time: int,
    location: string,
    event_type: string,
    is_published: bool,
    created_at: int,
    updated_at: int,
    registration_required: bool,
    max_attendees: Option<int>,
    volunteers_needed: bool,
    volunteer_roles: seq<string>)

  datatype Registration = Registration(
    event_id: string,
    member_id: string,
    member_name: string,
    role: string,
    registration_time: int,
    status: string)

  datatype VolunteerSignup = VolunteerSignup(
    event_id: string,
    member_id: string,
    member_name: string,
    role: string,
    signup_time: int,
    status: string)

  /** `Event(title=..., description=..., start_time=..., end_time=..., location=...)`: the
      model's own defaults for every other field. */
  function DefaultEvent(title: string, description: string, start: int, end: int, location: string, now: int)
    : (e: Event)
    ensures e.event_type == "service" && !e.is_published
    ensures !e.registration_required && !e.volunteers_needed
    ensures e.max_attendees.None? && e.volunteer_roles == []
    ensures e.created_at == now && e.updated_at == now
  {
    Event(title, description, start, end, location, "service", false, now, now, false, None, false, [])
  }

  /** A registration as the RSVP handler builds it: status "pending", time now. */
  function NewRegistration(eventId: string, memberId: string, name: string, role: string, now: int)
    : (r: Registration)
    ensures r.status == "pending" && r.registration_time == now
    ensures r.event_id == eventId && r.member_id == memberId && r.member_name == name && r.role == role
  {
    Registration(eventId, memberId, name, role, now, "pending")
  }

  /** A sign-up; a missing `member_name` defaults to "unknown". */
  function NewSignup(eventId: string, memberId: string, name: Option<string>, role: string, now: int)
    : (s: VolunteerSignup)
    ensures s.status == "pending" && s.signup_time == now
    ensures s.member_name == (if name.Some? then name.value else "unknown")
    ensures s.event_id == eventId && s.member_id == memberId && s.role == role
  {
    VolunteerSignup(eventId, memberId, if name.Some? then name.value else "unknown", role, now, "pending")
  }

  /** The event, registration and sign-up collections. `Event`'s inner class is spelt
      `Setting`, so Beanie does not read its `name = "events"` and uses its default
      collection name; registrations and sign-ups are `event_registrations` and
      `volunteer_signups`. */
  class EventDatabase {
    var events: seq<Doc<Event>>
    var registrations: seq<Doc<Registration>>
    var signups: seq<Doc<VolunteerSignup>>

    ghost predicate Valid()
      reads this
    {
      UniqueIds(events) && UniqueIds(registrations) && UniqueIds(signups)
    }
  }
}

/** The member-facing event handlers, backend/app/routes/events.py. The path parameter
    is a `PydanticObjectId`, so an id that does not parse is refused with 422. */
module EventRoutes {
  import opened Outcomes
  import opened ObjectIds
  import opened Collections
  import opened Sorting
  import opened MemberModel
  import opened EventModel

  const EventNotFound := "Event not found"
  const RegistrationNotRequired := "Registration not required for this event"
  const AlreadyRegistered := "Already registered for this event"
  const EventFull := "Event is full"
  const Registered := "Successfully registered for event"
  const VolunteersNotNeeded := "Volunteers not needed for this event"
  const InvalidVolunteerRole := "Invalid volunteer role"
  const AlreadySignedUp := "Already signed up for this role"
  const SignedUp := "Volunteer signup successful"

  function StartTime(d: Doc<Event>): int {
    d.body.start_time
  }

  function IsPublished(d: Doc<Event>): bool {
    d.body.is_published
  }

  /** The listing `list_upcoming_events` evidently intends: the published events by start
      time. Events in the past are not excluded. */
  function ListUpcomingEvents(events: seq<Doc<Event>>): (r: seq<Doc<Event>>)
    ensures SortedBy(r, StartTime)
    ensures multiset(r) == multiset(Filter(events, IsPublished))
  {
    SortBySortedPermutation(Filter(events, IsPublished), StartTime);
    SortBy(Filter(events, IsPublished), StartTime)
  }

  const FailedToRetrieveEvents := "Failed to retrieve events"

  /** `list_upcoming_events` as written. The query yields `ListUpcomingEvents`, but each
      `EventOut(...)` built from it leaves out `created_at` and `updated_at`, which the schema
      requires without a default. The first document therefore fails validation, and the
      generic `except` turns that into 500. Only an empty query result gets through. */
  function ListUpcomingEventsAsWritten(events: seq<Doc<Event>>): (r: Outcome<seq<Doc<Event>>>)
    ensures r.Ok? ==> r.value == []
    ensures r.Err? ==> r == Err(InternalError, FailedToRetrieveEvents)
  {
    if |ListUpcomingEvents(events)| == 0 then Ok([]) else Err(InternalError, FailedToRetrieveEvents)
  }

  /** As written, the public listing succeeds, with an empty list, exactly when no stored
      event is published, and answers 500 "Failed to retrieve events" otherwise. */
  lemma {:induction false} ListingAsWrittenFailsIffPublished(events: seq<Doc<Event>>)
    ensures ListUpcomingEventsAsWritten(events).Ok? <==> forall i :: 0 <= i < |events| ==> !events[i].body.is_published
    ensures ListUpcomingEventsAsWritten(events).Ok? ==> ListUpcomingEventsAsWritten(events).value == []
    ensures ListUpcomingEventsAsWritten(events).Err? ==>
      ListUpcomingEventsAsWritten(events) == Err(InternalError, FailedToRetrieveEvents)
  {
    ListingIsPublishedByStart(events);
    if |ListUpcomingEvents(events)| != 0 {
      var d := ListUpcomingEvents(events)[0];
      assert d in events && d.body.is_published;
      var i :| 0 <= i < |events| && events[i] == d;
    }
  }

  /** A single published event is enough to make the listing as written answer 500. */
  lemma OnePublishedEventFails(e: Doc<Event>)
    requires e.body.is_published
    ensures ListUpcomingEventsAsWritten([e]) == Err(InternalError, FailedToRetrieveEvents)
  {
    ListingAsWrittenFailsIffPublished([e]);
    assert [e][0] == e;
  }

  /** The listing holds exactly the published events, each once as often as stored, in
      non-decreasing start time. */
  lemma ListingIsPublishedByStart(events: seq<Doc<Event>>)
    ensures SortedBy(ListUpcomingEvents(events), StartTime)
    ensures multiset(ListUpcomingEvents(events)) == multiset(Filter(events, IsPublished))
    ensures forall i :: 0 <= i < |ListUpcomingEvents(events)| ==>
      ListUpcomingEvents(events)[i] in events && ListUpcomingEvents(events)[i].body.is_published
    ensures forall i :: 0 <= i < |events| && events[i].body.is_published ==> events[i] in ListUpcomingEvents(events)
  {
    var f := Filter(events, IsPublished);
    SortBySortedPermutation(f, StartTime);
    SortByElements(f, StartTime);
    forall i | 0 <= i < |events| && events[i].body.is_published ensures events[i] in ListUpcomingEvents(events) {
      assert events[i] in f;
      assert events[i] in multiset(ListUpcomingEvents(events));
    }
  }

  /** An event the member side may see: stored and published. */
  function VisibleEvent(events: seq<Doc<Event>>, eventId: string): (r: Outcome<Doc<Event>>)
    ensures Parse(eventId).None? ==> r == Err(Unprocessable, ValidationDetail)
    ensures Parse(eventId).Some? ==>
      (r.Ok? <==> Lookup(events, Parse(eventId).value).Some? && Lookup(events, Parse(eventId).value).value.is_published) &&
      (r.Ok? ==> r.value == Doc(Parse(eventId).value, Lookup(events, Parse(eventId).value).value)) &&
      (r.Err? ==> r == Err(NotFound, EventNotFound))
  {
    match Parse(eventId)
    case None => Err(Unprocessable, ValidationDetail)
    case Some(eid) =>
      match Lookup(events, eid)
      case None => Err(NotFound, EventNotFound)
      case Some(e) => if !e.is_published then Err(NotFound, EventNotFound) else Ok(Doc(eid, e))
  }

  /** `get_event_details`. */
  function GetEventDetails(events: seq<Doc<Event>>, eventId: string): (r: Outcome<Doc<Event>>)
    ensures r.Ok? ==> r.value in events && r.value.body.is_published
    ensures r.Err? ==> r.status in {Unprocessable, NotFound}
  {
    VisibleEvent(events, eventId)
  }

  /** `f"{first_name} {last_name}"`. */
  function FullName(m: Member): string {
    m.first_name + " " + m.last_name
  }

  /** The registration `rsvp_to_event` stores for a member. */
  function RsvpRecord(key: string, user: Doc<Member>, now: int): Registration {
    NewRegistration(key, ToStr(user.id), FullName(user.body), user.body.role, now)
  }

  /** The sign-up `signup_to_volunteer` stores for a member. */
  function SignupRecord(key: string, user: Doc<Member>, role: string, now: int): VolunteerSignup {
    NewSignup(key, ToStr(user.id), Some(FullName(user.body)), role, now)
  }

  predicate IsRegistered(regs: seq<Doc<Registration>>, eventKey: string, memberKey: string, role: string) {
    exists i :: 0 <= i < |regs| && regs[i].body.event_id == eventKey &&
      regs[i].body.member_id == memberKey && regs[i].body.role == role
  }

  function ForEvent(eventKey: string): Doc<Registration> -> bool {
    (d: Doc<Registration>) => d.body.event_id == eventKey
  }

  /** `EventRegistration.find(event_id == ...).count()`. */
  function CountFor(regs: seq<Doc<Registration>>, eventKey: string): nat {
    |Filter(regs, ForEvent(eventKey))|
  }

  /** `if event.max_attendees:` then the count test. `None` and 0 mean no limit; any other
      value, a negative one included, is a limit. */
  predicate IsFull(e: Event, regs: seq<Doc<Registration>>, eventKey: string) {
    e.max_attendees.Some? && e.max_attendees.value != 0 && CountFor(regs, eventKey) >= e.max_attendees.value
  }

  /** `rsvp_to_event`: answer and new registrations. The checks run in order and the first
      failing one decides: absent or unpublished (404), registration not required (400),
      already registered under the same role (400), full (400). */
  function Rsvp(events: seq<Doc<Event>>, regs: seq<Doc<Registration>>, eventId: string, user: Doc<Member>,
                newId: ObjectId, now: int): (r: (Outcome<string>, seq<Doc<Registration>>))
    ensures r.0.Err? ==> r.1 == regs
    ensures VisibleEvent(events, eventId).Err? ==>
      r.0 == Err(VisibleEvent(events, eventId).status, VisibleEvent(events, eventId).detail)
    ensures VisibleEvent(events, eventId).Ok? ==>
      var e := VisibleEvent(events, eventId).value;
      var key := ToStr(e.id);
      var dup := IsRegistered(regs, key, ToStr(user.id), user.body.role);
      (!e.body.registration_required ==> r.0 == Err(BadRequest, RegistrationNotRequired)) &&
      (e.body.registration_required && dup ==> r.0 == Err(BadRequest, AlreadyRegistered)) &&
      (e.body.registration_required && !dup && IsFull(e.body, regs, key) ==> r.0 == Err(BadRequest, EventFull)) &&
      (r.0.Ok? <==> (e.body.registration_required && !dup && !IsFull(e.body, regs, key))) &&
      (r.0.Ok? ==> (r.0.value == Registered && r.1 == regs + [Doc(newId, RsvpRecord(key, user, now))]))
  {
    match VisibleEvent(events, eventId)
    case Err(s, d) => (Err(s, d), regs)
    case Ok(e) =>
      var key := ToStr(e.id);
      if !e.body.registration_required then (Err(BadRequest, RegistrationNotRequired), regs)
      else if IsRegistered(regs, key, ToStr(user.id), user.body.role) then (Err(BadRequest, AlreadyRegistered), regs)
      else if IsFull(e.body, regs, key) then (Err(BadRequest, EventFull), regs)
      else (Ok(Registered),
            regs + [Doc(newId, RsvpRecord(key, user, now))])
  }

  lemma CountForAppend(regs: seq<Doc<Registration>>, d: Doc<Registration>, eventKey: string)
    ensures CountFor(regs + [d], eventKey) == CountFor(regs, eventKey) + (if d.body.event_id == eventKey then 1 else 0)
  {
    FilterAppend(regs, [d], ForEvent(eventKey));
    assert Filter([d], ForEvent(eventKey)) == (if d.body.event_id == eventKey then [d] else []) + Filter([d][1..], ForEvent(eventKey));
  }

  /** With a positive `max_attendees`, a successful RSVP never takes the event's
      registration count above it. */
  lemma RsvpRespectsCapacity(events: seq<Doc<Event>>, regs: seq<Doc<Registration>>, eventId: string,
                             user: Doc<Member>, newId: ObjectId, now: int)
    requires Rsvp(events, regs, eventId, user, newId, now).0.Ok?
    requires VisibleEvent(events, eventId).value.body.max_attendees.Some?
    requires VisibleEvent(events, eventId).value.body.max_attendees.value > 0
    ensures var e := VisibleEvent(events, eventId).value;
      CountFor(Rsvp(events, regs, eventId, user, newId, now).1, ToStr(e.id)) <= e.body.max_attendees.value
  {
    var e := VisibleEvent(events, eventId).value;
    var key := ToStr(e.id);
    var reg := Doc(newId, RsvpRecord(key, user, now));
    CountForAppend(regs, reg, key);
  }

  /** A successful RSVP raises that event's count by exactly one. */
  lemma RsvpAddsOne(events: seq<Doc<Event>>, regs: seq<Doc<Registration>>, eventId: string,
                    user: Doc<Member>, newId: ObjectId, now: int)
    requires Rsvp(events, regs, eventId, user, newId, now).0.Ok?
    ensures var key := ToStr(VisibleEvent(events, eventId).value.id);
      CountFor(Rsvp(events, regs, eventId, user, newId, now).1, key) == CountFor(regs, key) + 1
  {
    var e := VisibleEvent(events, eventId).value;
    var key := ToStr(e.id);
    CountForAppend(regs, Doc(newId, RsvpRecord(key, user, now)), key);
  }

  /** The duplicate check includes the role: after a role change the same member can
      register for the same event again. */
  lemma RoleChangeAllowsReregistration(events: seq<Doc<Event>>, regs: seq<Doc<Registration>>, eventId: string,
                                       user: Doc<Member>, newRole: string, id1: ObjectId, id2: ObjectId, t1: int, t2: int)
    requires Rsvp(events, regs, eventId, user, id1, t1).0.Ok?
    requires newRole != user.body.role && !IsRegistered(regs, ToStr(VisibleEvent(events, eventId).value.id), ToStr(user.id), newRole)
    requires VisibleEvent(events, eventId).value.body.max_attendees.None?
    ensures Rsvp(events, Rsvp(events, regs, eventId, user, id1, t1).1, eventId,
                 Doc(user.id, user.body.(role := newRole)), id2, t2).0.Ok?
  {
    var key := ToStr(VisibleEvent(events, eventId).value.id);
    var regs1 := Rsvp(events, regs, eventId, user, id1, t1).1;
    assert regs1 == regs + [Doc(id1, RsvpRecord(key, user, t1))];
    assert !IsRegistered(regs1, key, ToStr(user.id), newRole) by {
      forall i | 0 <= i < |regs1| && regs1[i].body.event_id == key && regs1[i].body.member_id == ToStr(user.id)
        ensures regs1[i].body.role != newRole
      {
        if i < |regs| {
          assert regs1[i] == regs[i];
        }
      }
    }
  }

  /** A negative `max_attendees` is a limit no count can stay under: such an event is
      always full. */
  lemma NegativeCapacityAlwaysFull(e: Event, regs: seq<Doc<Registration>>, eventKey: string)
    requires e.max_attendees.Some? && e.max_attendees.value < 0
    ensures IsFull(e, regs, eventKey)
  {
  }

  /** `rsvp_to_event` against the collections. */
  method RsvpToEvent(db: EventDatabase, eventId: string, user: Doc<Member>, newId: ObjectId, now: int)
    returns (r: Outcome<string>)
    requires db.Valid() && !HasId(db.registrations, newId)
    modifies db
    ensures db.Valid()
    ensures (r, db.registrations) == Rsvp(old(db.events), old(db.registrations), eventId, user, newId, now)
    ensures db.events == old(db.events) && db.signups == old(db.signups)
  {
    var found := VisibleEvent(db.events, eventId);
    if found.Err? {
      return Err(found.status, found.detail);
    }
    var e := found.value;
    var key := ToStr(e.id);
    if !e.body.registration_required {
      return Err(BadRequest, RegistrationNotRequired);
    }
    if IsRegistered(db.registrations, key, ToStr(user.id), user.body.role) {
      return Err(BadRequest, AlreadyRegistered);
    }
    if e.body.max_attendees.Some? && e.body.max_attendees.value != 0 {
      var count := CountFor(db.registrations, key);
      if count >= e.body.max_attendees.value {
        return Err(BadRequest, EventFull);
      }
    }
    var reg := RsvpRecord(key, user, now);
    db.registrations := db.registrations + [Doc(newId, reg)];
    r := Ok(Registered);
  }

  predicate IsSignedUp(signups: seq<Doc<VolunteerSignup>>, eventKey: string, memberKey: string, name: string, role: string) {
    exists i :: 0 <= i < |signups| && signups[i].body.event_id == eventKey &&
      signups[i].body.member_id == memberKey && signups[i].body.member_name == name && signups[i].body.role == role
  }

  /** `signup_to_volunteer`: 404 as for RSVP, then 400 when volunteers are not needed, when
      the role is not offered, or when the same sign-up exists; otherwise one sign-up is added. */
  function Volunteer(events: seq<Doc<Event>>, signups: seq<Doc<VolunteerSignup>>, eventId: string, role: string,
                     user: Doc<Member>, newId: ObjectId, now: int): (r: (Outcome<string>, seq<Doc<VolunteerSignup>>))
    ensures r.0.Err? ==> r.1 == signups
    ensures VisibleEvent(events, eventId).Err? ==>
      r.0 == Err(VisibleEvent(events, eventId).status, VisibleEvent(events, eventId).detail)
    ensures VisibleEvent(events, eventId).Ok? ==>
      var e := VisibleEvent(events, eventId).value;
      var key := ToStr(e.id);
      var offered := e.body.volunteers_needed && role in e.body.volunteer_roles;
      var dup := IsSignedUp(signups, key, ToStr(user.id), FullName(user.body), role);
      (!e.body.volunteers_needed ==> r.0 == Err(BadRequest, VolunteersNotNeeded)) &&
      (e.body.volunteers_needed && role !in e.body.volunteer_roles ==> r.0 == Err(BadRequest, InvalidVolunteerRole)) &&
      (offered && dup ==> r.0 == Err(BadRequest, AlreadySignedUp)) &&
      (r.0.Ok? <==> (offered && !dup)) &&
      (r.0.Ok? ==> (r.0.value == SignedUp && r.1 == signups + [Doc(newId, SignupRecord(key, user, role, now))]))
  {
    match VisibleEvent(events, eventId)
    case Err(s, d) => (Err(s, d), signups)
    case Ok(e) =>
      var key := ToStr(e.id);
      var name := FullName(user.body);
      if !e.body.volunteers_needed then (Err(BadRequest, VolunteersNotNeeded), signups)
      else if role !in e.body.volunteer_roles then (Err(BadRequest, InvalidVolunteerRole), signups)
      else if IsSignedUp(signups, key, ToStr(user.id), name, role) then (Err(BadRequest, AlreadySignedUp), signups)
      else (Ok(SignedUp), signups + [Doc(newId, SignupRecord(key, user, role, now))])
  }

  /** Signing up twice for the same role is refused the second time. */
  lemma VolunteerTwiceRefused(events: seq<Doc<Event>>, signups: seq<Doc<VolunteerSignup>>, eventId: string, role: string,
                              user: Doc<Member>, id1: ObjectId, id2: ObjectId, t1: int, t2: int)
    requires Volunteer(events, signups, eventId, role, user, id1, t1).0.Ok?
    ensures Volunteer(events, Volunteer(events, signups, eventId, role, user, id1, t1).1, eventId, role, user, id2, t2).0
         == Err(BadRequest, AlreadySignedUp)
  {
    var s1 := Volunteer(events, signups, eventId, role, user, id1, t1).1;
    var k := |signups|;
    assert s1[k].body.event_id == ToStr(VisibleEvent(events, eventId).value.id);
  }

  /** `signup_to_volunteer` against the collections. */
  method SignupToVolunteer(db: EventDatabase, eventId: string, role: string, user: Doc<Member>, newId: ObjectId, now: int)
    returns (r: Outcome<string>)
    requires db.Valid() && !HasId(db.signups, newId)
    modifies db
    ensures db.Valid()
    ensures (r, db.signups) == Volunteer(old(db.events), old(db.signups), eventId, role, user, newId, now)
    ensures db.events == old(db.events) && db.registrations == old(db.registrations)
  {
    var found := VisibleEvent(db.events, eventId);
    if found.Err? {
      return Err(found.status, found.detail);
    }
    var e := found.value;
    var key := ToStr(e.id);
    var name := FullName(user.body);
    if !e.body.volunteers_needed {
      return Err(BadRequest, VolunteersNotNeeded);
    }
    if role !in e.body.volunteer_roles {
      return Err(BadRequest, InvalidVolunteerRole);
    }
    if IsSignedUp(db.signups, key, ToStr(user.id), name, role) {
      return Err(BadRequest, AlreadySignedUp);
    }
    var signup := SignupRecord(key, user, role, now);
    db.signups := db.signups + [Doc(newId, signup)];
    r := Ok(SignedUp);
  }
}

/** The admin event handlers, backend/app/routes/admin/events.py. */
module AdminEvents {
  import opened Outcomes
  import opened ObjectIds
  import opened Collections
  import opened MemberModel
  import opened EventModel
  import opened EventRoutes

  /** `EventCreate`: it has no `is_published` field. */
  datatype EventCreate = EventCreate(
    title: string,
    description: string,
    start_time: int,
    end_time: int,
    location: string,
    event_type: string,
    registration_required: bool,
    max_attendees: Option<int>,
    volunteers_needed: bool,
    volunteer_roles: seq<string>)

  /** `Event(**event_data.dict())`: never published on creation. */
  function CreatedEvent(c: EventCreate, now: int): (e: Event)
    ensures !e.is_published && e.created_at == now && e.updated_at == now
    ensures e.title == c.title && e.description == c.description && e.start_time == c.start_time
    ensures e.end_time == c.end_time && e.location == c.location && e.event_type == c.event_type
    ensures e.registration_required == c.registration_required && e.max_attendees == c.max_attendees
    ensures e.volunteers_needed == c.volunteers_needed && e.volunteer_roles == c.volunteer_roles
  {
    Event(c.title, c.description, c.start_time, c.end_time, c.location, c.event_type, false, now, now,
          c.registration_required, c.max_attendees, c.volunteers_needed, c.volunteer_roles)
  }

  /** `create_event`. */
  method CreateEvent(db: EventDatabase, c: EventCreate, newId: ObjectId, now: int) returns (r: Doc<Event>)
    requires db.Valid() && !HasId(db.events, newId)
    modifies db
    ensures db.Valid()
    ensures r == Doc(newId, CreatedEvent(c, now)) && db.events == old(db.events) + [r]
    ensures db.registrations == old(db.registrations) && db.signups == old(db.signups)
  {
    r := Doc(newId, CreatedEvent(c, now));
    db.events := db.events + [r];
  }

  /** `EventUpdate` after `dict(exclude_unset=True)`. */
  datatype EventUpdate = EventUpdate(
    title: Patch<string>,
    description: Patch<string>,
    start_time: Patch<int>,
    end_time: Patch<int>,
    location: Patch<string>,
    event_type: Patch<string>,
    is_published: Patch<bool>,
    registration_required: Patch<bool>,
    max_attendees: Patch<Option<int>>,
    volunteers_needed: Patch<bool>,
    volunteer_roles: Patch<seq<string>>)

  /** An update that only sets `is_published`. */
  function PublishOnly(published: bool): EventUpdate {
    EventUpdate(Keep, Keep, Keep, Keep, Keep, Keep, Put(published), Keep, Keep, Keep, Keep)
  }

  /** `event.set(update_data)`: the supplied fields, and nothing else; `updated_at` is not touched. */
  function ApplyEventUpdate(e: Event, u: EventUpdate): (r: Event)
    ensures r.title == Apply(u.title, e.title) && r.description == Apply(u.description, e.description)
    ensures r.start_time == Apply(u.start_time, e.start_time) && r.end_time == Apply(u.end_time, e.end_time)
    ensures r.location == Apply(u.location, e.location) && r.event_type == Apply(u.event_type, e.event_type)
    ensures r.is_published == Apply(u.is_published, e.is_published)
    ensures r.registration_required == Apply(u.registration_required, e.registration_required)
    ensures r.max_attendees == Apply(u.max_attendees, e.max_attendees)
    ensures r.volunteers_needed == Apply(u.volunteers_needed, e.volunteers_needed)
    ensures r.volunteer_roles == Apply(u.volunteer_roles, e.volunteer_roles)
    ensures r.created_at == e.created_at && r.updated_at == e.updated_at
  {
    Event(Apply(u.title, e.title), Apply(u.description, e.description), Apply(u.start_time, e.start_time),
          Apply(u.end_time, e.end_time), Apply(u.location, e.location), Apply(u.event_type, e.event_type),
          Apply(u.is_published, e.is_published), e.created_at, e.updated_at,
          Apply(u.registration_required, e.registration_required), Apply(u.max_attendees, e.max_attendees),
          Apply(u.volunteers_needed, e.volunteers_needed), Apply(u.volunteer_roles, e.volunteer_roles))
  }

  /** A created event is not in the intended public listing; after an update that publishes
      it, it is. The listing as written then answers 500. */
  lemma PublishOnlyThroughUpdate(events: seq<Doc<Event>>, c: EventCreate, newId: ObjectId, now: int)
    requires !HasId(events, newId)
    ensures Doc(newId, CreatedEvent(c, now)) !in ListUpcomingEvents(events + [Doc(newId, CreatedEvent(c, now))])
    ensures var published := Doc(newId, ApplyEventUpdate(CreatedEvent(c, now), PublishOnly(true)));
      published in ListUpcomingEvents(Replace(events + [Doc(newId, CreatedEvent(c, now))], newId, published.body))
    ensures var published := Doc(newId, ApplyEventUpdate(CreatedEvent(c, now), PublishOnly(true)));
      ListUpcomingEventsAsWritten(Replace(events + [Doc(newId, CreatedEvent(c, now))], newId, published.body)) ==
      Err(InternalError, FailedToRetrieveEvents)
  {
    var created := Doc(newId, CreatedEvent(c, now));
    var all := events + [created];
    ListingIsPublishedByStart(all);
    var published := Doc(newId, ApplyEventUpdate(CreatedEvent(c, now), PublishOnly(true)));
    var after := Replace(all, newId, published.body);
    ListingIsPublishedByStart(after);
    assert after[|events|] == published;
  }

  /** `update_event`: 422 for an id that does not parse, 404 for an absent event (nothing
      changes), otherwise the supplied fields are written. */
  method UpdateEvent(db: EventDatabase, eventId: string, u: EventUpdate) returns (r: Outcome<Doc<Event>>)
    requires db.Valid()
    modifies db
    ensures db.Valid()
    ensures db.registrations == old(db.registrations) && db.signups == old(db.signups)
    ensures Parse(eventId).None? ==> r == Err(Unprocessable, ValidationDetail) && db.events == old(db.events)
    ensures Parse(eventId).Some? && !HasId(old(db.events), Parse(eventId).value) ==>
      r == Err(NotFound, EventNotFound) && db.events == old(db.events)
    ensures Parse(eventId).Some? && HasId(old(db.events), Parse(eventId).value) ==>
      var id := Parse(eventId).value;
      var updated := ApplyEventUpdate(Lookup(old(db.events), id).value, u);
      r == Ok(Doc(id, updated)) && db.events == Replace(old(db.events), id, updated)
  {
    var parsed := Parse(eventId);
    if parsed.None? {
      return Err(Unprocessable, ValidationDetail);
    }
    var id := parsed.value;
    var found := Lookup(db.events, id);
    if found.None? {
      return Err(NotFound, EventNotFound);
    }
    var updated := ApplyEventUpdate(found.value, u);
    db.events := Replace(db.events, id, updated);
    r := Ok(Doc(id, updated));
  }

  /** `delete_event` answers with the Python set `{"message", "Event deleted"}`. */
  const DeletedAnswer: set<string> := {"message", "Event deleted"}

  /** `delete_event`: 422 for an id that does not parse, 404 for an absent event, else the
      event is removed; its registrations and sign-ups stay. */
  method DeleteEvent(db: EventDatabase, eventId: string) returns (r: Outcome<set<string>>)
    requires db.Valid()
    modifies db
    ensures db.Valid()
    ensures db.registrations == old(db.registrations) && db.signups == old(db.signups)
    ensures Parse(eventId).None? ==> r == Err(Unprocessable, ValidationDetail) && db.events == old(db.events)
    ensures Parse(eventId).Some? && !HasId(old(db.events), Parse(eventId).value) ==>
      r == Err(NotFound, EventNotFound) && db.events == old(db.events)
    ensures Parse(eventId).Some? && HasId(old(db.events), Parse(eventId).value) ==>
      r == Ok(DeletedAnswer) && db.events == Remove(old(db.events), Parse(eventId).value)
  {
    var parsed := Parse(eventId);
    if parsed.None? {
      return Err(Unprocessable, ValidationDetail);
    }
    var id := parsed.value;
    if Lookup(db.events, id).None? {
      return Err(NotFound, EventNotFound);
    }
    RemoveKeepsUniqueIds(db.events, id);
    db.events := Remove(db.events, id);
    r := Ok(DeletedAnswer);
  }

  /** `view_event_registration`: all registrations, or for a non-empty `event_id` only
      those whose `event_id` equals it. */
  function ViewRegistrations(regs: seq<Doc<Registration>>, eventId: Option<string>): (r: seq<Doc<Registration>>)
    ensures eventId.None? || eventId.value == "" ==> r == regs
    ensures eventId.Some? && eventId.value != "" ==>
      (forall i :: 0 <= i < |r| ==> r[i] in regs && r[i].body.event_id == eventId.value) &&
      (forall i :: 0 <= i < |regs| && regs[i].body.event_id == eventId.value ==> regs[i] in r) &&
      Subsequence(r, regs)
  {
    if eventId.None? || eventId.value == "" then regs
    else
      FilterIsSubsequence(regs, ForEvent(eventId.value));
      Filter(regs, ForEvent(eventId.value))
  }

  /** `view_volunteer_list`: the same filter over sign-ups. */
  function ViewVolunteers(signups: seq<Doc<VolunteerSignup>>, eventId: Option<string>): (r: seq<Doc<VolunteerSignup>>)
    ensures eventId.None? || eventId.value == "" ==> r == signups
    ensures eventId.Some? && eventId.value != "" ==>
      (forall i :: 0 <= i < |r| ==> r[i] in signups && r[i].body.event_id == eventId.value) &&
      (forall i :: 0 <= i < |signups| && signups[i].body.event_id == eventId.value ==> signups[i] in r) &&
      Subsequence(r, signups)
  {
    if eventId.None? || eventId.value == "" then signups
    else
      FilterIsSubsequence(signups, (d: Doc<VolunteerSignup>) => d.body.event_id == eventId.value);
      Filter(signups, (d: Doc<VolunteerSignup>) => d.body.event_id == eventId.value)
  }

  /** After a successful RSVP the admin view of that event lists the new registration and
      exactly one more entry than before, and with a positive `max_attendees` never more
      entries than the limit. */
  lemma AdminViewAfterRsvp(events: seq<Doc<Event>>, regs: seq<Doc<Registration>>, eventId: string,
                           user: Doc<Member>, newId: ObjectId, now: int)
    requires Rsvp(events, regs, eventId, user, newId, now).0.Ok?
    ensures var e := VisibleEvent(events, eventId).value;
      var key := ToStr(e.id);
      var listed := ViewRegistrations(Rsvp(events, regs, eventId, user, newId, now).1, Some(key));
      Doc(newId, RsvpRecord(key, user, now)) in listed &&
      |listed| == |ViewRegistrations(regs, Some(key))| + 1 &&
      (e.body.max_attendees.Some? && e.body.max_attendees.value > 0 ==> |listed| <= e.body.max_attendees.value)
  {
    var e := VisibleEvent(events, eventId).value;
    var key := ToStr(e.id);
    var after := Rsvp(events, regs, eventId, user, newId, now).1;
    assert |key| == 24;
    assert after[|after| - 1] == Doc(newId, RsvpRecord(key, user, now));
    RsvpAddsOne(events, regs, eventId, user, newId, now);
    if e.body.max_attendees.Some? && e.body.max_attendees.value > 0 {
      RsvpRespectsCapacity(events, regs, eventId, user, newId, now);
    }
  }
}
