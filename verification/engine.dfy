/** The registration engine: the handlers that write the store (create event,
    register, cancel) and the registered_count / available_spots derivation,
    each run as one atomic step over an immutable store.
 */
module Engine {
  import opened Schema
  import opened Ledger
  import opened Users

  // ---------------------------------------------------------------------------
  // Store invariant
  // ---------------------------------------------------------------------------

  /** Every registration names an existing user and an existing event. */
  ghost predicate RowsReferToRows(s: Store) {
    forall i :: 0 <= i < |s.registrations| ==>
      IsId(s.registrations[i].userId, |s.users|) && IsId(s.registrations[i].eventId, |s.events|)
  }

  /** No event has more confirmed registrations than it has seats. */
  ghost predicate WithinCapacity(s: Store) {
    forall k :: 0 <= k < |s.events| ==>
      ConfirmedCount(s.registrations, k + 1) <= Seats(s.events[k].maxCapacity)
  }

  ghost predicate Valid(s: Store) {
    && UniqueEmails(s.users)
    && UniquePairs(s.registrations)
    && RowsReferToRows(s)
    && WithinCapacity(s)
  }

  lemma EmptyStoreValid()
    ensures Valid(EmptyStore)
  {
  }

  // ---------------------------------------------------------------------------
  // POST /api/events
  // ---------------------------------------------------------------------------

  /** JavaScript truthiness of a numeric field: absent and 0 are both falsy. */
  predicate PresentNumber(v: Option<int>) {
    v.Some? && v.value != 0
  }

  predicate EventFieldsPresent(title: Option<string>, eventDate: Option<string>,
                               location: Option<string>, maxCapacity: Option<int>) {
    Present(title) && Present(eventDate) && Present(location) && PresentNumber(maxCapacity)
  }

  /** Inserts an event after checking the four required fields; answers with
      the new event's id and row. */
  function CreateEvent(s: Store, title: Option<string>, description: Option<string>,
                       eventDate: Option<string>, location: Option<string>,
                       maxCapacity: Option<int>, now: Timestamp): (r: Step<(nat, Event)>)
    ensures r.result.Err? <==> !EventFieldsPresent(title, eventDate, location, maxCapacity)
    ensures r.result.Err? ==> r.result.error == ValidationError && r.store == s
    ensures r.result.Ok? ==>
      var (id, ev) := r.result.value;
      && r.store == s.(events := s.events + [ev])
      && id == |r.store.events|
      && ev.title == title.value && ev.eventDate == eventDate.value
      && ev.location == location.value && ev.maxCapacity == maxCapacity.value
      && ev.description == OrNull(description) && ev.createdAt == now
  {
    if !EventFieldsPresent(title, eventDate, location, maxCapacity) then
      Step(Err(ValidationError), s)
    else
      var ev := Event(title.value, OrNull(description), eventDate.value, location.value,
                      maxCapacity.value, now);
      Step(Ok((|s.events| + 1, ev)), s.(events := s.events + [ev]))
  }

  /** No registration names an event id beyond the table, so a new event starts empty. */
  lemma UnreferencedEventHasNoSeats(s: Store, eventId: nat)
    requires RowsReferToRows(s)
    requires eventId > |s.events|
    ensures ConfirmedCount(s.registrations, eventId) == 0
  {
    forall i | 0 <= i < |s.registrations|
      ensures !HoldsSeat(s.registrations[i], eventId)
    {
      assert IsId(s.registrations[i].eventId, |s.events|);
    }
  }

  lemma CreateEventPreservesValid(s: Store, title: Option<string>, description: Option<string>,
                                  eventDate: Option<string>, location: Option<string>,
                                  maxCapacity: Option<int>, now: Timestamp)
    requires Valid(s)
    ensures Valid(CreateEvent(s, title, description, eventDate, location, maxCapacity, now).store)
  {
    var r := CreateEvent(s, title, description, eventDate, location, maxCapacity, now);
    if r.result.Ok? {
      UnreferencedEventHasNoSeats(s, |s.events| + 1);
    }
  }

  // ---------------------------------------------------------------------------
  // GET /api/events/:id — registered_count and available_spots
  // ---------------------------------------------------------------------------

  datatype EventSummary = EventSummary(
    eventId: nat,
    event: Event,
    registeredCount: nat,
    availableSpots: int)

  function Summarize(s: Store, eventId: nat): (r: Result<EventSummary>)
    ensures r.Err? <==> !IsId(eventId, |s.events|)
    ensures r.Err? ==> r.error == NotFound
    ensures r.Ok? ==>
      && r.value.eventId == eventId
      && r.value.event == s.events[eventId - 1]
      && r.value.registeredCount == |SeatRows(s.registrations, eventId)|
      && r.value.registeredCount + r.value.availableSpots == r.value.event.maxCapacity
  {
    if !IsId(eventId, |s.events|) then Err(NotFound)
    else
      var ev := s.events[eventId - 1];
      var count := ConfirmedCount(s.registrations, eventId);
      ConfirmedCountIsSeatRows(s.registrations, eventId);
      Ok(EventSummary(eventId, ev, count, ev.maxCapacity - count))
  }

  /** In a valid store an event with a non-negative capacity never shows a
      negative number of available spots. */
  lemma AvailableSpotsNonNegative(s: Store, eventId: nat)
    requires Valid(s)
    requires IsId(eventId, |s.events|) && s.events[eventId - 1].maxCapacity >= 0
    ensures Summarize(s, eventId).value.availableSpots >= 0
  {
    assert ConfirmedCount(s.registrations, (eventId - 1) + 1)
        <= Seats(s.events[eventId - 1].maxCapacity);
  }

  // ---------------------------------------------------------------------------
  // POST /api/events/:id/register
  // ---------------------------------------------------------------------------

  /** What the event looked like when the capacity check read it. */
  datatype EventSnapshot = EventSnapshot(eventId: nat, event: Event, registeredCount: nat)

  datatype Registered =
    /** A new row was inserted (201). */
    | Created(registrationId: nat, registration: Registration, userId: nat, user: User,
              event: EventSnapshot)
    /** A cancelled row was confirmed again; `registration` is the row as read
        before the update, so its status is still `Cancelled`. */
    | Reactivated(registrationId: nat, registration: Registration)

  /** The request passes validation, names an existing event, and that event had
      a free seat when the count was read. */
  ghost predicate Admitted(s: Store, eventId: nat, name: Option<string>, email: Option<string>) {
    && Present(name) && Present(email)
    && IsId(eventId, |s.events|)
    && ConfirmedCount(s.registrations, eventId) < s.events[eventId - 1].maxCapacity
  }

  function Register(s: Store, eventId: nat, name: Option<string>, email: Option<string>,
                    phone: Option<string>, now: Timestamp): (r: Step<Registered>)
    ensures r.result == Err(ValidationError) <==> !Present(name) || !Present(email)
    ensures r.result == Err(NotFound) <==>
      Present(name) && Present(email) && !IsId(eventId, |s.events|)
    ensures r.result == Err(Full) <==>
      && Present(name) && Present(email) && IsId(eventId, |s.events|)
      && ConfirmedCount(s.registrations, eventId) >= s.events[eventId - 1].maxCapacity
    ensures r.result.Err? && r.result.error != AlreadyRegistered ==> r.store == s
    ensures r.result.Err? ==> r.store.registrations == s.registrations
    ensures r.store.events == s.events
    ensures s.users <= r.store.users && |r.store.users| <= |s.users| + 1
  {
    if !Present(name) || !Present(email) then Step(Err(ValidationError), s)
    else if !IsId(eventId, |s.events|) then Step(Err(NotFound), s)
    else
      var ev := s.events[eventId - 1];
      var count := ConfirmedCount(s.registrations, eventId);
      if count >= ev.maxCapacity then Step(Err(Full), s)
      else
        var u := GetOrCreateUser(s, name.value, email.value, phone, now);
        var regs := u.store.registrations;
        match FindRegistration(regs, u.userId, eventId)
        case Some(i) =>
          if regs[i].status == Cancelled then
            var regs' := regs[i := regs[i].(status := Confirmed)];
            Step(Ok(Reactivated(i + 1, regs[i])), u.store.(registrations := regs'))
          else
            Step(Err(AlreadyRegistered), u.store)
        case None =>
          var reg := Registration(u.userId, eventId, now, Confirmed);
          var snapshot := EventSnapshot(eventId, ev, count);
          Step(Ok(Created(|regs| + 1, reg, u.userId, u.user, snapshot)),
               u.store.(registrations := regs + [reg]))
  }

  /** A user the store does not know yet has no registrations. */
  lemma NewUserHasNoRows(s: Store, eventId: nat)
    requires RowsReferToRows(s)
    ensures FindRegistration(s.registrations, |s.users| + 1, eventId).None?
  {
    forall i | 0 <= i < |s.registrations|
      ensures !IsPair(s.registrations[i], |s.users| + 1, eventId)
    {
      assert IsId(s.registrations[i].userId, |s.users|);
    }
  }

  /** The user registering already holds a row `i` for this event: a confirmed
      row is refused and nothing is written; a cancelled row is confirmed again
      in place, keeping its id, user, event and registration date. */
  lemma RegisterExistingRow(s: Store, eventId: nat, name: Option<string>, email: Option<string>,
                            phone: Option<string>, now: Timestamp, k: nat, i: nat)
    requires Valid(s) && Admitted(s, eventId, name, email)
    requires k < |s.users| && s.users[k].email == email.value
    requires i < |s.registrations| && IsPair(s.registrations[i], k + 1, eventId)
    ensures s.registrations[i].status == Confirmed ==>
      Register(s, eventId, name, email, phone, now) == Step(Err(AlreadyRegistered), s)
    ensures s.registrations[i].status == Cancelled ==>
      var r := Register(s, eventId, name, email, phone, now);
      && r.result == Ok(Reactivated(i + 1, s.registrations[i]))
      && r.store.events == s.events && r.store.users == s.users
      && |r.store.registrations| == |s.registrations|
      && r.store.registrations[i] == s.registrations[i].(status := Confirmed)
      && (forall j :: 0 <= j < |s.registrations| && j != i ==>
            r.store.registrations[j] == s.registrations[j])
  {
    GetOrCreateFindsExisting(s, name.value, email.value, phone, now, k);
    FindRegistrationUnique(s.registrations, k + 1, eventId, i);
  }

  /** The registering user holds no row for this event (a new email, or a known
      user who never registered for it): exactly one confirmed row is appended. */
  lemma RegisterNewRow(s: Store, eventId: nat, name: Option<string>, email: Option<string>,
                       phone: Option<string>, now: Timestamp)
    requires Valid(s) && Admitted(s, eventId, name, email)
    requires forall k, i ::
      (0 <= k < |s.users| && 0 <= i < |s.registrations| && s.users[k].email == email.value)
      ==> !IsPair(s.registrations[i], k + 1, eventId)
    ensures
      var r := Register(s, eventId, name, email, phone, now);
      && r.result.Ok? && r.result.value.Created?
      && var c := r.result.value;
      && r.store.registrations == s.registrations + [c.registration]
      && c.registrationId == |r.store.registrations|
      && c.registration == Registration(c.userId, eventId, now, Confirmed)
      && IsId(c.userId, |r.store.users|) && r.store.users[c.userId - 1] == c.user
      && c.user.email == email.value
      && c.event == EventSnapshot(eventId, s.events[eventId - 1],
                                  ConfirmedCount(s.registrations, eventId))
    ensures var r := Register(s, eventId, name, email, phone, now);
      Known(s.users, email.value) ==> r.store.users == s.users
    ensures var r := Register(s, eventId, name, email, phone, now);
      !Known(s.users, email.value) ==>
        r.store.users == s.users + [User(name.value, email.value, OrNull(phone), now)]
  {
    var u := GetOrCreateUser(s, name.value, email.value, phone, now);
    var f := FindUserByEmail(s.users, email.value);
    if f.None? {
      NewUserHasNoRows(s, eventId);
    } else {
      assert u.userId == f.value + 1;
    }
  }

  /** AlreadyRegistered is answered only when the user holding the request's
      email has a confirmed row for the event. */
  lemma RegisterAlreadyRegisteredRow(s: Store, eventId: nat, name: Option<string>,
                                     email: Option<string>, phone: Option<string>, now: Timestamp)
    requires RowsReferToRows(s)
    requires Register(s, eventId, name, email, phone, now).result == Err(AlreadyRegistered)
    ensures var k := FindUserByEmail(s.users, email.value);
      && k.Some?
      && var i := FindRegistration(s.registrations, k.value + 1, eventId);
      && i.Some? && s.registrations[i.value].status == Confirmed
  {
    if !Known(s.users, email.value) {
      NewUserHasNoRows(s, eventId);
    }
  }

  /** A successful register takes exactly one seat at its event and leaves every
      other event's count alone. */
  lemma RegisterTakesOneSeat(s: Store, eventId: nat, name: Option<string>, email: Option<string>,
                             phone: Option<string>, now: Timestamp)
    requires Register(s, eventId, name, email, phone, now).result.Ok?
    ensures var regs' := Register(s, eventId, name, email, phone, now).store.registrations;
      && ConfirmedCount(regs', eventId) == ConfirmedCount(s.registrations, eventId) + 1
      && forall e :: e != eventId ==> ConfirmedCount(regs', e) == ConfirmedCount(s.registrations, e)
  {
    var r := Register(s, eventId, name, email, phone, now);
    var u := GetOrCreateUser(s, name.value, email.value, phone, now);
    var regs := s.registrations;
    match FindRegistration(regs, u.userId, eventId)
    case Some(i) =>
      forall e ensures ConfirmedCount(r.store.registrations, e) + Seat(regs[i], e)
                    == ConfirmedCount(regs, e) + Seat(regs[i].(status := Confirmed), e)
      {
        CountUpdate(regs, i, regs[i].(status := Confirmed), e);
      }
    case None =>
      forall e ensures ConfirmedCount(r.store.registrations, e)
                    == ConfirmedCount(regs, e) + Seat(Registration(u.userId, eventId, now, Confirmed), e)
      {
        CountAppend(regs, Registration(u.userId, eventId, now, Confirmed), e);
      }
  }

  /** In a valid store a refused register writes nothing at all: in particular no
      user is created when the request ends in an error. */
  lemma RegisterErrorWritesNothing(s: Store, eventId: nat, name: Option<string>,
                                   email: Option<string>, phone: Option<string>, now: Timestamp)
    requires Valid(s)
    requires Register(s, eventId, name, email, phone, now).result.Err?
    ensures Register(s, eventId, name, email, phone, now).store == s
  {
    if Admitted(s, eventId, name, email) && !Known(s.users, email.value) {
      NewUserHasNoRows(s, eventId);
    }
  }

  lemma RegisterPreservesValid(s: Store, eventId: nat, name: Option<string>, email: Option<string>,
                               phone: Option<string>, now: Timestamp)
    requires Valid(s)
    ensures Valid(Register(s, eventId, name, email, phone, now).store)
  {
    RegisterKeepsUniqueEmails(s, eventId, name, email, phone, now);
    RegisterKeepsPairs(s, eventId, name, email, phone, now);
    RegisterKeepsRefs(s, eventId, name, email, phone, now);
    RegisterKeepsCapacity(s, eventId, name, email, phone, now);
  }

  lemma RegisterKeepsUniqueEmails(s: Store, eventId: nat, name: Option<string>,
                                  email: Option<string>, phone: Option<string>, now: Timestamp)
    requires UniqueEmails(s.users)
    ensures UniqueEmails(Register(s, eventId, name, email, phone, now).store.users)
  {
    if Admitted(s, eventId, name, email) {
      GetOrCreatePreservesUniqueEmails(s, name.value, email.value, phone, now);
    }
  }

  lemma RegisterKeepsPairs(s: Store, eventId: nat, name: Option<string>,
                           email: Option<string>, phone: Option<string>, now: Timestamp)
    requires UniquePairs(s.registrations)
    ensures UniquePairs(Register(s, eventId, name, email, phone, now).store.registrations)
  {
    if Admitted(s, eventId, name, email) {
      var u := GetOrCreateUser(s, name.value, email.value, phone, now);
      match FindRegistration(s.registrations, u.userId, eventId)
      case Some(i) =>
        SetStatusKeepsPairs(s.registrations, i, Confirmed);
      case None =>
        AppendFreshPairKeepsPairs(s.registrations, Registration(u.userId, eventId, now, Confirmed));
    }
  }

  lemma RegisterKeepsRefs(s: Store, eventId: nat, name: Option<string>,
                          email: Option<string>, phone: Option<string>, now: Timestamp)
    requires RowsReferToRows(s)
    ensures RowsReferToRows(Register(s, eventId, name, email, phone, now).store)
  {
    var r := Register(s, eventId, name, email, phone, now);
    if Admitted(s, eventId, name, email) {
      var u := GetOrCreateUser(s, name.value, email.value, phone, now);
      forall i | 0 <= i < |r.store.registrations|
        ensures IsId(r.store.registrations[i].userId, |r.store.users|)
        ensures IsId(r.store.registrations[i].eventId, |r.store.events|)
      {
        if i < |s.registrations| {
          assert r.store.registrations[i].userId == s.registrations[i].userId;
          assert r.store.registrations[i].eventId == s.registrations[i].eventId;
        }
      }
    }
  }

  /** Changing one row's status leaves every (user, event) pair where it was. */
  lemma SetStatusKeepsPairs(regs: seq<Registration>, i: nat, st: Status)
    requires UniquePairs(regs) && i < |regs|
    ensures UniquePairs(regs[i := regs[i].(status := st)])
  {
    var regs' := regs[i := regs[i].(status := st)];
    forall a, b | 0 <= a < b < |regs'|
      ensures !IsPair(regs'[b], regs'[a].userId, regs'[a].eventId)
    {
      assert !IsPair(regs[b], regs[a].userId, regs[a].eventId);
    }
  }

  /** Appending a row whose pair has no row yet keeps pairs unique. */
  lemma AppendFreshPairKeepsPairs(regs: seq<Registration>, r: Registration)
    requires UniquePairs(regs)
    requires FindRegistration(regs, r.userId, r.eventId).None?
    ensures UniquePairs(regs + [r])
  {
    var regs' := regs + [r];
    forall a, b | 0 <= a < b < |regs'|
      ensures !IsPair(regs'[b], regs'[a].userId, regs'[a].eventId)
    {
      if b < |regs| {
        assert !IsPair(regs[b], regs[a].userId, regs[a].eventId);
      } else {
        assert !IsPair(regs[a], r.userId, r.eventId);
      }
    }
  }

  /** A successful register was admitted below capacity and takes one seat, so
      every event stays within its capacity. */
  lemma RegisterKeepsCapacity(s: Store, eventId: nat, name: Option<string>, email: Option<string>,
                              phone: Option<string>, now: Timestamp)
    requires WithinCapacity(s)
    ensures WithinCapacity(Register(s, eventId, name, email, phone, now).store)
  {
    var r := Register(s, eventId, name, email, phone, now);
    if r.result.Ok? {
      RegisterTakesOneSeat(s, eventId, name, email, phone, now);
      forall k | 0 <= k < |s.events|
        ensures ConfirmedCount(r.store.registrations, k + 1) <= Seats(s.events[k].maxCapacity)
      {
        if k + 1 != eventId {
          assert ConfirmedCount(r.store.registrations, k + 1)
              == ConfirmedCount(s.registrations, k + 1);
        }
      }
    }
  }

  // ---------------------------------------------------------------------------
  // DELETE /api/registrations/:id
  // ---------------------------------------------------------------------------

  /** `UPDATE registrations SET status = 'cancelled' WHERE id = ?`; an id that
      matches no row is NotFound. An already-cancelled row still matches, so
      cancelling it again succeeds. */
  function Cancel(s: Store, registrationId: nat): (r: Step<()>)
    ensures r.result.Ok? <==> IsId(registrationId, |s.registrations|)
    ensures r.result.Err? ==> r.result.error == NotFound && r.store == s
    ensures r.store.events == s.events && r.store.users == s.users
    ensures |r.store.registrations| == |s.registrations|
    ensures forall i :: 0 <= i < |s.registrations| && i + 1 != registrationId ==>
      r.store.registrations[i] == s.registrations[i]
    ensures r.result.Ok? ==>
      r.store.registrations[registrationId - 1]
        == s.registrations[registrationId - 1].(status := Cancelled)
  {
    if !IsId(registrationId, |s.registrations|) then Step(Err(NotFound), s)
    else
      var i := registrationId - 1;
      var regs' := s.registrations[i := s.registrations[i].(status := Cancelled)];
      Step(Ok(()), s.(registrations := regs'))
  }

  /** Cancelling a row that is already cancelled succeeds and changes nothing. */
  lemma CancelCancelledIsNoOp(s: Store, registrationId: nat)
    requires IsId(registrationId, |s.registrations|)
    requires s.registrations[registrationId - 1].status == Cancelled
    ensures Cancel(s, registrationId) == Step(Ok(()), s)
  {
    var i := registrationId - 1;
    assert s.registrations[i := s.registrations[i].(status := Cancelled)] == s.registrations;
  }

  /** Cancelling twice has the effect of cancelling once. */
  lemma CancelIdempotent(s: Store, registrationId: nat)
    ensures Cancel(Cancel(s, registrationId).store, registrationId) == Cancel(s, registrationId)
  {
    if IsId(registrationId, |s.registrations|) {
      CancelCancelledIsNoOp(Cancel(s, registrationId).store, registrationId);
    }
  }

  /** Cancelling frees the row's seat if it held one; no other count changes. */
  lemma CancelFreesSeat(s: Store, registrationId: nat, e: nat)
    requires IsId(registrationId, |s.registrations|)
    ensures ConfirmedCount(Cancel(s, registrationId).store.registrations, e)
         == ConfirmedCount(s.registrations, e) - Seat(s.registrations[registrationId - 1], e)
  {
    var i := registrationId - 1;
    CountUpdate(s.registrations, i, s.registrations[i].(status := Cancelled), e);
  }

  lemma CancelPreservesValid(s: Store, registrationId: nat)
    requires Valid(s)
    ensures Valid(Cancel(s, registrationId).store)
  {
    var r := Cancel(s, registrationId);
    if r.result.Ok? {
      var regs' := r.store.registrations;
      SetStatusKeepsPairs(s.registrations, registrationId - 1, Cancelled);
      forall k | 0 <= k < |s.events|
        ensures ConfirmedCount(regs', k + 1) <= Seats(s.events[k].maxCapacity)
      {
        CancelFreesSeat(s, registrationId, k + 1);
      }
    }
  }
}
