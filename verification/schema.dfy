/** The three tables of the event-registration database, as immutable values.

    Rows are never deleted by the registration engine and every table uses an
    AUTOINCREMENT integer primary key, so a table is a sequence in which the row
    with id `k` sits at index `k - 1`; the id the next insert receives is
    `|table| + 1`.
 */
module Schema {

  /** An opaque database timestamp (`CURRENT_TIMESTAMP`); its date semantics are not modelled. */
  type Timestamp = nat

  datatype Option<+T> = None | Some(value: T)

  /** The two values the `status` column ever holds. */
  datatype Status = Confirmed | Cancelled

  datatype Event = Event(
    title: string,
    description: Option<string>,
    eventDate: string,
    location: string,
    maxCapacity: int,
    createdAt: Timestamp)

  datatype User = User(name: string, email: string, phone: Option<string>, createdAt: Timestamp)

  datatype Registration = Registration(
    userId: nat,
    eventId: nat,
    registrationDate: Timestamp,
    status: Status)

  datatype Store = Store(events: seq<Event>, users: seq<User>, registrations: seq<Registration>)

  /** The failures the handlers report, one per HTTP error response of the engine. */
  datatype Error =
    | ValidationError    // 400: a required field is missing
    | NotFound           // 404: unknown event or registration id
    | Full               // 400: "Event is full"
    | AlreadyRegistered  // 400: "Already registered for this event"

  datatype Result<+T> = Ok(value: T) | Err(error: Error)

  /** An operation's answer together with the store it leaves behind. */
  datatype Step<+T> = Step(result: Result<T>, store: Store)

  /** `id` names an existing row of a table with `n` rows. */
  predicate IsId(id: nat, n: nat) {
    1 <= id <= n
  }

  /** JavaScript truthiness of an optional text field: absent and "" are both falsy. */
  predicate Present(v: Option<string>) {
    v.Some? && v.value != ""
  }

  /** The `v || null` idiom: a falsy text value is stored as NULL. */
  function OrNull(v: Option<string>): (r: Option<string>)
    ensures r.Some? <==> Present(v)
    ensures r.Some? ==> r == v
  {
    if Present(v) then v else None
  }

  /** The number of seats an event can hold: a negative capacity holds none. */
  function Seats(maxCapacity: int): (n: nat)
    ensures maxCapacity >= 0 ==> n == maxCapacity
    ensures maxCapacity < 0 ==> n == 0
  {
    if maxCapacity < 0 then 0 else maxCapacity
  }

  const EmptyStore := Store([], [], [])
}
