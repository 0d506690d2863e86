/** The registrations table: the confirmed-seat count of an event, the lookup of
    the row for a (user, event) pair, and the table's own integrity constraints.
 */
module Ledger {
  import opened Schema

  /** The row is a confirmed seat at the event with id `eventId`. */
  predicate HoldsSeat(r: Registration, eventId: nat) {
    r.eventId == eventId && r.status == Confirmed
  }

  /** 1 when the row holds a seat at `eventId`, else 0. */
  function Seat(r: Registration, eventId: nat): (n: nat)
    ensures n == 1 <==> HoldsSeat(r, eventId)
    ensures n <= 1
  {
    if HoldsSeat(r, eventId) then 1 else 0
  }

  /** `COUNT(r.id)` over `registrations r` joined on `r.event_id = e.id AND
      r.status = 'confirmed'`: the event's registered_count. */
  function ConfirmedCount(regs: seq<Registration>, eventId: nat): (n: nat)
    ensures n <= |regs|
    ensures n == 0 <==> forall i :: 0 <= i < |regs| ==> !HoldsSeat(regs[i], eventId)
  {
    if |regs| == 0 then 0
    else ConfirmedCount(regs[..|regs| - 1], eventId) + Seat(regs[|regs| - 1], eventId)
  }

  /** Reference definition of the count: the set of positions holding a seat. */
  ghost function SeatRows(regs: seq<Registration>, eventId: nat): set<nat> {
    set i: nat | i < |regs| && HoldsSeat(regs[i], eventId)
  }

  lemma {:induction false} ConfirmedCountIsSeatRows(regs: seq<Registration>, eventId: nat)
    ensures ConfirmedCount(regs, eventId) == |SeatRows(regs, eventId)|
  {
    if |regs| == 0 {
      assert SeatRows(regs, eventId) == {};
    } else {
      var last := |regs| - 1;
      var prefix := regs[..last];
      ConfirmedCountIsSeatRows(prefix, eventId);
      if HoldsSeat(regs[last], eventId) {
        assert SeatRows(regs, eventId) == SeatRows(prefix, eventId) + {last};
      } else {
        assert SeatRows(regs, eventId) == SeatRows(prefix, eventId);
      }
    }
  }

  /** Appending a row adds its seat, if any, to the count. */
  lemma CountAppend(regs: seq<Registration>, r: Registration, eventId: nat)
    ensures ConfirmedCount(regs + [r], eventId) == ConfirmedCount(regs, eventId) + Seat(r, eventId)
  {
    assert (regs + [r])[..|regs|] == regs;
  }

  /** Replacing one row trades its seat for the seat of the replacement. */
  lemma {:induction false} CountUpdate(regs: seq<Registration>, i: nat, r: Registration, eventId: nat)
    requires i < |regs|
    ensures ConfirmedCount(regs[i := r], eventId) + Seat(regs[i], eventId)
         == ConfirmedCount(regs, eventId) + Seat(r, eventId)
  {
    var last := |regs| - 1;
    var regs' := regs[i := r];
    if i == last {
      assert regs'[..last] == regs[..last];
    } else {
      CountUpdate(regs[..last], i, r, eventId);
      assert regs'[..last] == regs[..last][i := r];
    }
  }

  /** The row for one (user, event) pair. */
  predicate IsPair(r: Registration, userId: nat, eventId: nat) {
    r.userId == userId && r.eventId == eventId
  }

  /** `SELECT * FROM registrations WHERE user_id = ? AND event_id = ?`: the index
      of a row for the pair, or None when the pair has no row. */
  function FindRegistration(regs: seq<Registration>, userId: nat, eventId: nat): (r: Option<nat>)
    ensures r.Some? ==> r.value < |regs| && IsPair(regs[r.value], userId, eventId)
    ensures r.None? <==> forall i :: 0 <= i < |regs| ==> !IsPair(regs[i], userId, eventId)
  {
    if |regs| == 0 then None
    else if IsPair(regs[|regs| - 1], userId, eventId) then Some(|regs| - 1)
    else FindRegistration(regs[..|regs| - 1], userId, eventId)
  }

  /** `UNIQUE(user_id, event_id)`: no two rows share a pair. */
  ghost predicate UniquePairs(regs: seq<Registration>) {
    forall i, j :: 0 <= i < j < |regs| ==>
      !IsPair(regs[j], regs[i].userId, regs[i].eventId)
  }

  /** Under the uniqueness constraint the row found for a pair is the only one. */
  lemma FindRegistrationUnique(regs: seq<Registration>, userId: nat, eventId: nat, k: nat)
    requires UniquePairs(regs)
    requires k < |regs| && IsPair(regs[k], userId, eventId)
    ensures FindRegistration(regs, userId, eventId) == Some(k)
  {
    forall i | 0 <= i < |regs| && i != k
      ensures !IsPair(regs[i], userId, eventId)
    {
      if i < k {
        assert !IsPair(regs[k], regs[i].userId, regs[i].eventId);
      }
    }
  }
}
