/** Sequences of requests handled one after another, each as one atomic step,
    and the whole-history guarantees that follow from the per-step lemmas.
 */
module Traces {
  import opened Schema
  import opened Ledger
  import opened Users
  import opened Engine

  /** The three requests that write the store. */
  datatype Request =
    | CreateEventRequest(title: Option<string>, description: Option<string>,
                         eventDate: Option<string>, location: Option<string>,
                         maxCapacity: Option<int>, now: Timestamp)
    | RegisterRequest(eventId: nat, name: Option<string>, email: Option<string>,
                      phone: Option<string>, now: Timestamp)
    | CancelRequest(registrationId: nat)

  function Apply(s: Store, q: Request): Store {
    match q
    case CreateEventRequest(title, description, eventDate, location, maxCapacity, now) =>
      CreateEvent(s, title, description, eventDate, location, maxCapacity, now).store
    case RegisterRequest(eventId, name, email, phone, now) =>
      Register(s, eventId, name, email, phone, now).store
    case CancelRequest(registrationId) =>
      Cancel(s, registrationId).store
  }

  /** Handles the requests in order. Events and users are only ever appended
      and registrations are never removed. */
  function Run(s: Store, qs: seq<Request>): (s': Store)
    ensures s.events <= s'.events
    ensures s.users <= s'.users
    ensures |s.registrations| <= |s'.registrations|
    decreases |qs|
  {
    if |qs| == 0 then s else Run(Apply(s, qs[0]), qs[1..])
  }

  lemma ApplyPreservesValid(s: Store, q: Request)
    requires Valid(s)
    ensures Valid(Apply(s, q))
  {
    match q
    case CreateEventRequest(title, description, eventDate, location, maxCapacity, now) =>
      CreateEventPreservesValid(s, title, description, eventDate, location, maxCapacity, now);
    case RegisterRequest(eventId, name, email, phone, now) =>
      RegisterPreservesValid(s, eventId, name, email, phone, now);
    case CancelRequest(registrationId) =>
      CancelPreservesValid(s, registrationId);
  }

  lemma {:induction false} RunPreservesValid(s: Store, qs: seq<Request>)
    requires Valid(s)
    ensures Valid(Run(s, qs))
    decreases |qs|
  {
    if |qs| > 0 {
      ApplyPreservesValid(s, qs[0]);
      RunPreservesValid(Apply(s, qs[0]), qs[1..]);
    }
  }

  /** Whatever requests arrive, one at a time, starting from empty tables: no
      event ever has more confirmed registrations than seats, emails stay
      unique, and each (user, event) pair has at most one row. */
  lemma NoOverbooking(qs: seq<Request>, eventId: nat)
    requires IsId(eventId, |Run(EmptyStore, qs).events|)
    ensures var s := Run(EmptyStore, qs);
      && ConfirmedCount(s.registrations, eventId) <= Seats(s.events[eventId - 1].maxCapacity)
      && UniqueEmails(s.users)
      && UniquePairs(s.registrations)
  {
    EmptyStoreValid();
    RunPreservesValid(EmptyStore, qs);
    var s := Run(EmptyStore, qs);
    assert ConfirmedCount(s.registrations, (eventId - 1) + 1)
        <= Seats(s.events[eventId - 1].maxCapacity);
  }

  /** A successful register leaves a confirmed row, at the id it answers with,
      for the event and for the user holding the request's email. */
  lemma RegisterOkRow(s: Store, eventId: nat, name: Option<string>, email: Option<string>,
                      phone: Option<string>, now: Timestamp)
    requires Register(s, eventId, name, email, phone, now).result.Ok?
    ensures var r := Register(s, eventId, name, email, phone, now);
      var id := r.result.value.registrationId;
      var regs' := r.store.registrations;
      && IsId(id, |regs'|)
      && regs'[id - 1].eventId == eventId && regs'[id - 1].status == Confirmed
      && IsId(regs'[id - 1].userId, |r.store.users|)
      && r.store.users[regs'[id - 1].userId - 1].email == email.value
  {
    var u := GetOrCreateUser(s, name.value, email.value, phone, now);
    match FindRegistration(s.registrations, u.userId, eventId)
    case Some(i) =>
    case None =>
  }

  /** Two requests contend for the last seat of an event, handled one after
      the other: when the first requester holds no confirmed row for the event,
      the first is confirmed, the second is refused as full with nothing
      written, and the event ends exactly at capacity. */
  lemma LastSeatGoesToFirst(s: Store, eventId: nat,
                            name1: Option<string>, email1: Option<string>, phone1: Option<string>,
                            now1: Timestamp,
                            name2: Option<string>, email2: Option<string>, phone2: Option<string>,
                            now2: Timestamp)
    requires Valid(s) && IsId(eventId, |s.events|)
    requires ConfirmedCount(s.registrations, eventId) + 1 == s.events[eventId - 1].maxCapacity
    requires Present(name1) && Present(email1) && Present(name2) && Present(email2)
    requires forall k, i ::
      (0 <= k < |s.users| && 0 <= i < |s.registrations| && s.users[k].email == email1.value
       && IsPair(s.registrations[i], k + 1, eventId))
      ==> s.registrations[i].status != Confirmed
    ensures var r1 := Register(s, eventId, name1, email1, phone1, now1);
      var r2 := Register(r1.store, eventId, name2, email2, phone2, now2);
      && r1.result.Ok?
      && r2 == Step(Err(Full), r1.store)
      && ConfirmedCount(r2.store.registrations, eventId) == s.events[eventId - 1].maxCapacity
  {
    var r1 := Register(s, eventId, name1, email1, phone1, now1);
    if r1.result.Err? {
      RegisterAlreadyRegisteredRow(s, eventId, name1, email1, phone1, now1);
      assert false;
    }
    RegisterTakesOneSeat(s, eventId, name1, email1, phone1, now1);
  }

  /** Cancelling a confirmed row and then registering again with the email of
      its user reactivates that same row: the answer carries the row as read
      before the update (status Cancelled), and the store ends exactly as it was
      before the cancel, with the original id and registration date. */
  lemma CancelThenRegisterRestores(s: Store, id: nat, name: Option<string>,
                                   email: Option<string>, phone: Option<string>, now: Timestamp)
    requires Valid(s) && IsId(id, |s.registrations|)
    requires s.registrations[id - 1].status == Confirmed
    requires Present(name) && Present(email)
    requires s.users[s.registrations[id - 1].userId - 1].email == email.value
    ensures var row := s.registrations[id - 1];
      var r := Register(Cancel(s, id).store, row.eventId, name, email, phone, now);
      && r.result == Ok(Reactivated(id, row.(status := Cancelled)))
      && r.store == s
  {
    var row := s.registrations[id - 1];
    var eventId := row.eventId;
    assert IsId(row.userId, |s.users|) && IsId(eventId, |s.events|);
    var s2 := Cancel(s, id).store;
    CancelPreservesValid(s, id);
    CancelFreesSeat(s, id, eventId);
    assert ConfirmedCount(s.registrations, (eventId - 1) + 1)
        <= Seats(s.events[eventId - 1].maxCapacity);
    assert Admitted(s2, eventId, name, email);
    RegisterExistingRow(s2, eventId, name, email, phone, now, row.userId - 1, id - 1);
    var r := Register(s2, eventId, name, email, phone, now);
    assert r.store.registrations == s.registrations;
  }

  /** Register, cancel, register again with the same email: the second register
      answers with the id the first one did and brings the store back to the
      state right after the first. */
  lemma RegisterCancelRegister(s: Store, eventId: nat, name: Option<string>,
                               email: Option<string>, phone: Option<string>, now: Timestamp,
                               name': Option<string>, phone': Option<string>, now': Timestamp)
    requires Valid(s) && Present(name')
    requires Register(s, eventId, name, email, phone, now).result.Ok?
    ensures var r1 := Register(s, eventId, name, email, phone, now);
      var id := r1.result.value.registrationId;
      var r3 := Register(Cancel(r1.store, id).store, eventId, name', email, phone', now');
      && r3.result.Ok? && r3.result.value.registrationId == id
      && r3.store == r1.store
  {
    var r1 := Register(s, eventId, name, email, phone, now);
    RegisterOkRow(s, eventId, name, email, phone, now);
    RegisterPreservesValid(s, eventId, name, email, phone, now);
    CancelThenRegisterRestores(r1.store, r1.result.value.registrationId, name', email, phone', now');
  }
}
