/** The user and subscription tables of users/models.py: a custom user whose
    login is the e-mail address, with unique e-mail and username, and the
    subscription of a user to an author, unique per pair and never of a
    user to themself. */
module Users {
  import opened Text

  /** Primary keys are auto-incremented integers. */
  type UserId = nat

  datatype User = User(email: string, username: string, firstName: string, lastName: string, isSuperuser: bool)

  /** Who sends a request: the anonymous user, or a signed-in user with the
      superuser flag of their account. */
  datatype Requester = Anonymous | Authenticated(id: UserId, isSuperuser: bool)

  /** The `unique=True` of `email` and of `username`. */
  predicate UniqueLogins(users: map<UserId, User>)
  {
    forall a, b :: a in users && b in users && a != b ==>
      users[a].email != users[b].email && users[a].username != users[b].username
  }

  /** A row of `Subscriptions`: `user` follows `author`. */
  datatype Subscription = Subscription(user: UserId, author: UserId)

  /** The check constraint `check_self_subscription`. */
  predicate NotSelf(s: Subscription)
  {
    s.user != s.author
  }

  /** The account that signs in with `email` (the e-mail is the
      `USERNAME_FIELD`), looked up among the ids below `bound`. */
  function UserByEmail(users: map<UserId, User>, bound: nat, email: string): (r: Option<UserId>)
    ensures r.Some? ==> r.value in users && r.value < bound && users[r.value].email == email
    ensures r.None? <==> forall id :: id in users && id < bound ==> users[id].email != email
  {
    if bound == 0 then None
    else if bound - 1 in users && users[bound - 1].email == email then Some(bound - 1)
    else UserByEmail(users, bound - 1, email)
  }

  /** Because e-mails are unique, an e-mail signs in exactly the one account
      that holds it. */
  lemma {:induction false} EmailIdentifiesUser(users: map<UserId, User>, bound: nat, id: UserId)
    requires UniqueLogins(users)
    requires id in users && id < bound
    ensures UserByEmail(users, bound, users[id].email) == Some(id)
  {
    if id < bound - 1 {
      if !(bound - 1 in users && users[bound - 1].email == users[id].email) {
        EmailIdentifiesUser(users, bound - 1, id);
      }
    }
  }

  /** The users among `ids` below `bound` in the model's default order,
      newest account (highest id) first. */
  function NewestFirst(ids: set<UserId>, bound: nat): (r: seq<UserId>)
    ensures forall i :: 0 <= i < |r| ==> r[i] < bound
    ensures forall i, j :: 0 <= i < j < |r| ==> r[i] > r[j]
    ensures forall x :: x in r <==> x in ids && x < bound
  {
    if bound == 0 then []
    else (if bound - 1 in ids then [bound - 1] else []) + NewestFirst(ids, bound - 1)
  }
}
