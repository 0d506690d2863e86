/** The users table: lookup by email and the get-or-create helper the register
    handler calls (server.js, `getOrCreateUser`).
 */
module Users {
  import opened Schema

  /** `UNIQUE` on the email column: no two users share an email. */
  ghost predicate UniqueEmails(users: seq<User>) {
    forall i, j :: 0 <= i < j < |users| ==> users[i].email != users[j].email
  }

  /** Some user has exactly this email (case-sensitive, as SQLite's `=` on TEXT). */
  ghost predicate Known(users: seq<User>, email: string) {
    exists i :: 0 <= i < |users| && users[i].email == email
  }

  /** `SELECT * FROM users WHERE email = ?`: the index of a user with that email. */
  function FindUserByEmail(users: seq<User>, email: string): (r: Option<nat>)
    ensures r.Some? ==> r.value < |users| && users[r.value].email == email
    ensures r.None? <==> !Known(users, email)
  {
    if |users| == 0 then None
    else if users[|users| - 1].email == email then Some(|users| - 1)
    else FindUserByEmail(users[..|users| - 1], email)
  }

  /** The user the helper hands back, with its id, and the store after it ran. */
  datatype Resolved = Resolved(userId: nat, user: User, store: Store)

  /** Returns the user with `email` untouched when there is one; otherwise inserts
      `(name, email, phone || null)` and returns the new row. */
  function GetOrCreateUser(s: Store, name: string, email: string, phone: Option<string>, now: Timestamp)
    : (r: Resolved)
    ensures IsId(r.userId, |r.store.users|) && r.store.users[r.userId - 1] == r.user
    ensures r.user.email == email
    ensures r.store.events == s.events && r.store.registrations == s.registrations
    ensures Known(s.users, email) ==> r.store == s
    ensures !Known(s.users, email) ==>
      && r.store.users == s.users + [User(name, email, OrNull(phone), now)]
      && r.userId == |s.users| + 1
  {
    match FindUserByEmail(s.users, email)
    case Some(i) => Resolved(i + 1, s.users[i], s)
    case None =>
      var user := User(name, email, OrNull(phone), now);
      Resolved(|s.users| + 1, user, s.(users := s.users + [user]))
  }

  /** With unique emails, an existing email resolves to its one user, and the
      supplied name and phone are ignored. */
  lemma GetOrCreateFindsExisting(s: Store, name: string, email: string, phone: Option<string>,
                                 now: Timestamp, k: nat)
    requires UniqueEmails(s.users)
    requires k < |s.users| && s.users[k].email == email
    ensures GetOrCreateUser(s, name, email, phone, now) == Resolved(k + 1, s.users[k], s)
  {
    assert Known(s.users, email);
  }

  /** Emails stay unique, and the users already present are kept as they were. */
  lemma GetOrCreatePreservesUniqueEmails(s: Store, name: string, email: string,
                                         phone: Option<string>, now: Timestamp)
    requires UniqueEmails(s.users)
    ensures UniqueEmails(GetOrCreateUser(s, name, email, phone, now).store.users)
    ensures s.users <= GetOrCreateUser(s, name, email, phone, now).store.users
  {
  }

  /** Resolving the same email twice yields the same user, and the second call
      writes nothing. */
  lemma {:induction false} GetOrCreateIdempotent(s: Store, name: string, email: string,
                                                 phone: Option<string>, now: Timestamp,
                                                 name': string, phone': Option<string>, now': Timestamp)
    ensures var r1 := GetOrCreateUser(s, name, email, phone, now);
            var r2 := GetOrCreateUser(r1.store, name', email, phone', now');
            r2 == Resolved(r1.userId, r1.user, r1.store)
  {
    var r1 := GetOrCreateUser(s, name, email, phone, now);
    if !Known(s.users, email) {
      // the lookup scans from the newest row, which is the one just inserted
      assert FindUserByEmail(r1.store.users, email) == Some(|s.users|);
    }
  }
}
