/** The actions of api/views.py that change or list rows: adding a recipe to
    and removing it from the shopping cart and the favourites, subscribing
    to and unsubscribing from an author, the list of one's subscriptions,
    and the name of the downloaded shopping list. Each toggle answers with
    an HTTP status; the checks come in the order the framework makes them:
    authentication, then the request method, then the object's existence;
    an OPTIONS request that passes authentication gets the framework's
    description of the action (200). */
module Views {
  import opened Text
  import opened Users
  import opened Recipes
  import opened Storage
  import opened Permissions
  import Serializers
  import Services
  import Collections

  const Described: int := 200
  const Created: int := 201
  const NoContent: int := 204
  const BadRequest: int := 400
  const Unauthorized: int := 401
  const NotFound: int := 404
  const MethodNotAllowed: int := 405

  /** The status of a response and the `error` text of its body, if any. */
  datatype Reply = Reply(status: int, error: Option<string>)

  const AlreadyInCart: string := "Рецепт уже в списке покупок."
  const AlreadyFavourite: string := "Рецепт уже в избранном."
  const SelfSubscription: string := "Нельзя подписаться на самого себя."
  const AlreadySubscribed: string := "Вы уже подписаны на этого автора."
  const NotSubscribed: string := "Вы и так не подписаны на этого автора."

  // ---------------------------------------------------------------------
  // What the toggles answer
  // ---------------------------------------------------------------------

  /** The answer of the cart and favourite actions: `found` is whether the
      recipe exists, `present` whether the requester's row for it does;
      both refusals of the pair carry the same `message`. */
  function ToggleReply(who: Requester, m: Verb, found: bool, present: bool, message: string): Reply
  {
    if who.Anonymous? then Reply(Unauthorized, None)
    else if m == Options then Reply(Described, None)
    else if m != Post && m != Delete then Reply(MethodNotAllowed, None)
    else if !found then Reply(NotFound, None)
    else if m == Post && !present then Reply(Created, None)
    else if m == Delete && present then Reply(NoContent, None)
    else Reply(BadRequest, Some(message))
  }

  /** The answer of `subscribe`: `found` is whether the author exists,
      `self` whether the author is the requester, and `present` whether
      the subscription exists. */
  function SubscribeReply(who: Requester, m: Verb, found: bool, self: bool, present: bool): Reply
  {
    if who.Anonymous? then Reply(Unauthorized, None)
    else if m == Options then Reply(Described, None)
    else if m != Post && m != Delete then Reply(MethodNotAllowed, None)
    else if !found then Reply(NotFound, None)
    else if self then Reply(BadRequest, Some(SelfSubscription))
    else if m == Post then (if present then Reply(BadRequest, Some(AlreadySubscribed)) else Reply(Created, None))
    else (if present then Reply(NoContent, None) else Reply(BadRequest, Some(NotSubscribed)))
  }

  /** A toggle that gets past the checks succeeds exactly when it would
      change the pair, and otherwise is refused with its message. */
  lemma ToggleOutcomes(who: Requester, m: Verb, present: bool, message: string)
    requires who.Authenticated? && (m == Post || m == Delete)
    ensures ToggleReply(who, m, true, present, message).status == Created <==> m == Post && !present
    ensures ToggleReply(who, m, true, present, message).status == NoContent <==> m == Delete && present
    ensures ToggleReply(who, m, true, present, message) == Reply(BadRequest, Some(message)) <==>
      (m == Post) == present
  {
  }

  /** Subscribing to oneself is refused for both methods, whatever the
      subscriptions hold. */
  lemma SelfSubscriptionRefused(id: UserId, superuser: bool, m: Verb, present: bool)
    requires m == Post || m == Delete
    ensures SubscribeReply(Authenticated(id, superuser), m, true, true, present) == Reply(BadRequest, Some(SelfSubscription))
  {
  }

  // ---------------------------------------------------------------------
  // The toggles
  // ---------------------------------------------------------------------

  /** `shopping_cart`: POST adds the requester's row for the recipe, DELETE
      removes it; anything else leaves the cart as it was. Whenever the
      request reaches the pair, the recipe is in the cart afterwards exactly
      when the method was POST. */
  method ShoppingCart(db: Store, who: Requester, m: Verb, pk: RecipeId) returns (reply: Reply)
    requires db.Valid() && (who.Authenticated? ==> who.id in db.users)
    modifies db`cart, db`nextCartId
    ensures db.Valid()
    ensures reply == ToggleReply(who, m, pk in old(db.recipes), old(Serializers.IsInShoppingCart(db.Snapshot(), who, pk)), AlreadyInCart)
    ensures reply.status == Created ==>
      db.cart == old(db.cart) + [CartEntry(old(db.nextCartId), who.id, pk)] && db.nextCartId == old(db.nextCartId) + 1
    ensures reply.status == NoContent ==>
      db.cart == CartWithoutPair(old(db.cart), who.id, pk) && db.nextCartId == old(db.nextCartId)
    ensures reply.status != Created && reply.status != NoContent ==>
      db.cart == old(db.cart) && db.nextCartId == old(db.nextCartId)
    ensures reply.status in {Created, NoContent, BadRequest} ==>
      (Serializers.IsInShoppingCart(db.Snapshot(), who, pk) <==> m == Post)
  {
    if who.Anonymous? {
      return Reply(Unauthorized, None);
    }
    if m == Options {
      return Reply(Described, None);
    }
    if m != Post && m != Delete {
      return Reply(MethodNotAllowed, None);
    }
    if pk !in db.recipes {
      return Reply(NotFound, None);
    }
    var present := HasCartPair(db.cart, who.id, pk);
    if m == Post && !present {
      var e := CartEntry(db.nextCartId, who.id, pk);
      var t := db.Snapshot();
      AddCartRowKeepsOk(t, who.id, pk);
      db.cart, db.nextCartId := db.cart + [e], db.nextCartId + 1;
      assert db.Snapshot() == t.(cart := t.cart + [e], nextCartId := t.nextCartId + 1);
      assert db.cart[|db.cart| - 1] == e;
      return Reply(Created, None);
    }
    if m == Delete && present {
      var t := db.Snapshot();
      RemoveCartPairKeepsOk(t, who.id, pk);
      db.cart := CartWithoutPair(db.cart, who.id, pk);
      assert db.Snapshot() == t.(cart := CartWithoutPair(t.cart, who.id, pk));
      return Reply(NoContent, None);
    }
    reply := Reply(BadRequest, Some(AlreadyInCart));
  }

  /** `favorite`: the same three outcomes over the favourites. */
  method Favorite(db: Store, who: Requester, m: Verb, pk: RecipeId) returns (reply: Reply)
    requires db.Valid() && (who.Authenticated? ==> who.id in db.users)
    modifies db`favourites
    ensures db.Valid()
    ensures reply == ToggleReply(who, m, pk in old(db.recipes), old(Serializers.IsFavorited(db.Snapshot(), who, pk)), AlreadyFavourite)
    ensures reply.status == Created ==> db.favourites == old(db.favourites) + {Favourite(who.id, pk)}
    ensures reply.status == NoContent ==> db.favourites == old(db.favourites) - {Favourite(who.id, pk)}
    ensures reply.status != Created && reply.status != NoContent ==> db.favourites == old(db.favourites)
    ensures reply.status in {Created, NoContent, BadRequest} ==>
      (Serializers.IsFavorited(db.Snapshot(), who, pk) <==> m == Post)
  {
    if who.Anonymous? {
      return Reply(Unauthorized, None);
    }
    if m == Options {
      return Reply(Described, None);
    }
    if m != Post && m != Delete {
      return Reply(MethodNotAllowed, None);
    }
    if pk !in db.recipes {
      return Reply(NotFound, None);
    }
    var f := Favourite(who.id, pk);
    var present := f in db.favourites;
    if m == Post && !present {
      var t := db.Snapshot();
      ChangeFavouritesKeepsOk(t, t.favourites + {f});
      db.favourites := db.favourites + {f};
      assert db.Snapshot() == t.(favourites := t.favourites + {f});
      return Reply(Created, None);
    }
    if m == Delete && present {
      var t := db.Snapshot();
      ChangeFavouritesKeepsOk(t, t.favourites - {f});
      db.favourites := db.favourites - {f};
      assert db.Snapshot() == t.(favourites := t.favourites - {f});
      return Reply(NoContent, None);
    }
    reply := Reply(BadRequest, Some(AlreadyFavourite));
  }

  /** `subscribe`: a subscription to oneself is refused before anything
      else; otherwise POST creates the subscription and DELETE removes it,
      and each is refused with its own message when there is nothing to do. */
  method Subscribe(db: Store, who: Requester, m: Verb, author: UserId) returns (reply: Reply)
    requires db.Valid() && (who.Authenticated? ==> who.id in db.users)
    modifies db`subscriptions
    ensures db.Valid()
    ensures reply == SubscribeReply(who, m, author in old(db.users), who.Authenticated? && who.id == author,
      old(Serializers.IsSubscribed(db.Snapshot(), who, author)))
    ensures reply.status == Created ==> db.subscriptions == old(db.subscriptions) + {Subscription(who.id, author)}
    ensures reply.status == NoContent ==> db.subscriptions == old(db.subscriptions) - {Subscription(who.id, author)}
    ensures reply.status != Created && reply.status != NoContent ==> db.subscriptions == old(db.subscriptions)
    ensures reply.status in {Created, NoContent} || reply.error in {Some(AlreadySubscribed), Some(NotSubscribed)} ==>
      (Serializers.IsSubscribed(db.Snapshot(), who, author) <==> m == Post)
  {
    if who.Anonymous? {
      return Reply(Unauthorized, None);
    }
    if m == Options {
      return Reply(Described, None);
    }
    if m != Post && m != Delete {
      return Reply(MethodNotAllowed, None);
    }
    if author !in db.users {
      return Reply(NotFound, None);
    }
    if who.id == author {
      return Reply(BadRequest, Some(SelfSubscription));
    }
    var s := Subscription(who.id, author);
    var present := s in db.subscriptions;
    if m == Post {
      if !present {
        var t := db.Snapshot();
        ChangeSubscriptionsKeepsOk(t, t.subscriptions + {s});
        db.subscriptions := db.subscriptions + {s};
        assert db.Snapshot() == t.(subscriptions := t.subscriptions + {s});
        return Reply(Created, None);
      }
      return Reply(BadRequest, Some(AlreadySubscribed));
    }
    if present {
      var t := db.Snapshot();
      ChangeSubscriptionsKeepsOk(t, t.subscriptions - {s});
      db.subscriptions := db.subscriptions - {s};
      assert db.Snapshot() == t.(subscriptions := t.subscriptions - {s});
      return Reply(NoContent, None);
    }
    reply := Reply(BadRequest, Some(NotSubscribed));
  }

  // ---------------------------------------------------------------------
  // Undoing a toggle
  // ---------------------------------------------------------------------

  /** Adding a recipe to the cart and then removing it gives back the
      cart as it was. */
  lemma CartAddThenRemove(cart: seq<CartEntry>, id: nat, user: UserId, recipe: RecipeId)
    requires !HasCartPair(cart, user, recipe)
    ensures CartWithoutPair(cart + [CartEntry(id, user, recipe)], user, recipe) == cart
  {
    var keep := OtherPair(user, recipe);
    Collections.FilterAppend(cart, [CartEntry(id, user, recipe)], keep);
    assert forall i :: 0 <= i < |cart| ==> keep(cart[i]);
    Collections.FilterAll(cart, keep);
  }

  /** Removing a recipe from the cart and adding it again gives back the
      same rows of the requester's except that the pair now comes last,
      with a new id. */
  lemma CartRemoveThenAdd(cart: seq<CartEntry>, id: nat, user: UserId, recipe: RecipeId)
    ensures var again := CartWithoutPair(cart, user, recipe) + [CartEntry(id, user, recipe)];
      HasCartPair(again, user, recipe) &&
      forall e: CartEntry :: e.user != user || e.recipe != recipe ==> (e in again <==> e in cart)
  {
    var again := CartWithoutPair(cart, user, recipe) + [CartEntry(id, user, recipe)];
    assert again[|again| - 1] == CartEntry(id, user, recipe);
  }

  // ---------------------------------------------------------------------
  // Listings
  // ---------------------------------------------------------------------

  /** `subscriptions`: `User.objects.filter(signed__user=user)`, the
      authors the requester follows, newest account first. */
  function Subscriptions(t: Tables, user: UserId): (r: seq<UserId>)
    requires t.Ok()
    ensures forall a :: a in r <==> Serializers.IsSubscribed(t, Authenticated(user, false), a)
    ensures forall i, j :: 0 <= i < j < |r| ==> r[i] > r[j]
  {
    var authors := set s | s in t.subscriptions && s.user == user :: s.author;
    assert forall a :: a in authors <==> Subscription(user, a) in t.subscriptions by {
      forall a | Subscription(user, a) in t.subscriptions ensures a in authors {
        var s := Subscription(user, a);
        assert s in t.subscriptions && s.user == user;
      }
    }
    NewestFirst(authors, t.nextUserId)
  }

  /** The file name of `download_shopping_cart`. */
  function ShoppingListFilename(username: string): string
  {
    username + "_shopping_list.txt"
  }

  /** The `Content-Disposition` header of the download. */
  function ContentDisposition(username: string): string
  {
    "attachment; filename=" + ShoppingListFilename(username)
  }

  /** Because usernames are unique, two users never download files of the
      same name. */
  lemma FilenamesDiffer(users: map<UserId, User>, a: UserId, b: UserId)
    requires UniqueLogins(users) && a in users && b in users && a != b
    ensures ShoppingListFilename(users[a].username) != ShoppingListFilename(users[b].username)
    ensures ContentDisposition(users[a].username) != ContentDisposition(users[b].username)
  {
    var x, y := users[a].username, users[b].username;
    var fx, fy := ShoppingListFilename(x), ShoppingListFilename(y);
    assert fx[..|x|] == x && fy[..|y|] == y;
    if |x| == |y| {
      assert fx[..|x|] != fy[..|y|];
    } else {
      assert |fx| != |fy|;
    }
    var prefix := "attachment; filename=";
    assert ContentDisposition(x)[|prefix|..] == fx;
    assert ContentDisposition(y)[|prefix|..] == fy;
  }

  /** The answer of `download_shopping_cart`: a refusal, the description
      of the action, or the list as a plain-text attachment. */
  datatype Download =
    | Refused(status: int)
    | Description
    | Attachment(body: string, contentType: string, disposition: string)

  /** `download_shopping_cart`, a GET action (HEAD is served by the same
      handler): the requester's shopping list, offered for download under a
      file name made of the username. */
  function DownloadShoppingCart(t: Tables, who: Requester, m: Verb, fullName: string, now: Services.DateTime): (r: Download)
    requires t.Ok() && now.Valid() && (who.Authenticated? ==> who.id in t.users)
    ensures r.Refused? <==> who.Anonymous? || !(m in {Get, Head, Options})
    ensures who.Anonymous? ==> r == Refused(Unauthorized)
    ensures r.Description? <==> who.Authenticated? && m == Options
    ensures r.Attachment? ==>
      && r.body == Services.ShoppingList(t, who.id, fullName, now)
      && r.contentType == "text/plain; charset=utf-8"
      && r.disposition == ContentDisposition(t.users[who.id].username)
  {
    if who.Anonymous? then Refused(Unauthorized)
    else if m == Options then Description
    else if m != Get && m != Head then Refused(MethodNotAllowed)
    else
      Attachment(Services.ShoppingList(t, who.id, fullName, now), "text/plain; charset=utf-8",
        ContentDisposition(t.users[who.id].username))
  }
}
