/** `IsAdminOwnerOrReadOnly` of api/permissions.py: reading is open to
    everyone, creating needs a signed-in user, and changing or deleting a
    recipe needs its author or a superuser. */
module Permissions {
  import opened Text
  import opened Users

  /** The HTTP request methods. */
  datatype Verb = Get | Head | Options | Post | Put | Patch | Delete

  /** `SAFE_METHODS`: the methods that only read. */
  predicate Safe(m: Verb)
  {
    m == Get || m == Head || m == Options
  }

  /** `has_permission`: checked on every request to the recipe routes. */
  predicate HasPermission(m: Verb, who: Requester)
  {
    Safe(m) || who.Authenticated?
  }

  /** `has_object_permission`: checked on the routes of one recipe, whose
      author is `author` (None once the author's account is gone). The
      anonymous user is never a superuser and never equal to an author. */
  predicate HasObjectPermission(m: Verb, who: Requester, author: Option<UserId>)
  {
    Safe(m) || (who.Authenticated? && who.isSuperuser) || (who.Authenticated? && author == Some(who.id))
  }

  /** Both checks pass: what a request on one recipe needs. */
  predicate MayAccess(m: Verb, who: Requester, author: Option<UserId>)
  {
    HasPermission(m, who) && HasObjectPermission(m, who, author)
  }

  /** A request that does not only read needs a signed-in user, on the
      collection and on a single recipe. */
  lemma AnonymousOnlyReads(m: Verb, author: Option<UserId>)
    ensures HasPermission(m, Anonymous) <==> Safe(m)
    ensures HasObjectPermission(m, Anonymous, author) <==> Safe(m)
  {
  }

  /** Changing or deleting a recipe is allowed exactly to its author and to
      superusers. */
  lemma ChangeNeedsOwnerOrSuperuser(m: Verb, who: Requester, author: Option<UserId>)
    requires !Safe(m)
    ensures MayAccess(m, who, author) <==>
      who.Authenticated? && (who.isSuperuser || author == Some(who.id))
  {
  }

  /** A recipe whose author was deleted (SET_NULL) can be changed or deleted
      by superusers only. */
  lemma OrphanNeedsSuperuser(m: Verb, who: Requester)
    requires !Safe(m)
    ensures MayAccess(m, who, None) <==> who.Authenticated? && who.isSuperuser
  {
  }

  /** Reading is never refused. */
  lemma ReadingIsOpen(m: Verb, who: Requester, author: Option<UserId>)
    requires Safe(m)
    ensures MayAccess(m, who, author)
  {
  }
}
