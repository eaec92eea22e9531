/** The database as one object whose tables the operations change in
    place: users, tags, ingredients and recipes keyed by their primary key,
    the ingredient-amount rows and the cart rows in insertion order, and
    the favourite and subscription pairs. `Valid` collects the constraints
    of recipes/models.py and users/models.py; the delete methods carry out
    their CASCADE and SET_NULL rules. */
module Storage {
  import opened Text
  import Collections
  import opened Users
  import opened Recipes

  // ---------------------------------------------------------------------
  // The constraints, table by table
  // ---------------------------------------------------------------------

  /** Unique e-mail and username; ids below the next id to hand out. */
  predicate UsersOk(users: map<UserId, User>, next: nat)
  {
    UniqueLogins(users) && forall id :: id in users ==> id < next
  }

  /** Unique names and slugs; every colour passes the validator. */
  predicate TagsOk(tags: map<TagId, Tag>, next: nat)
  {
    UniqueTags(tags) && forall id :: id in tags ==> id < next && ValidTag(tags[id])
  }

  predicate IngredientsOk(ingredients: map<IngredientId, Ingredient>, next: nat)
  {
    UniqueIngredients(ingredients) && forall id :: id in ingredients ==> id < next
  }

  /** Unique (name, author); the author, when set, and the tags exist; the
      cooking time passes its validators. */
  predicate RecipesOk(recipes: map<RecipeId, Recipe>, next: nat, userIds: set<UserId>, tagIds: set<TagId>)
  {
    && UniqueRecipeNames(recipes)
    && forall id :: id in recipes ==>
      && id < next
      && (recipes[id].author.Some? ==> recipes[id].author.value in userIds)
      && recipes[id].tags <= tagIds
      && ValidSmallPositive(recipes[id].cookingTime)
  }

  /** Every amount row refers to an existing recipe and ingredient and holds
      a valid amount. */
  predicate AmountsOk(amounts: seq<AmountRow>, recipeIds: set<RecipeId>, ingredientIds: set<IngredientId>)
  {
    forall row :: row in amounts ==>
      row.recipe in recipeIds && row.ingredient in ingredientIds && ValidSmallPositive(row.amount)
  }

  /** Cart rows in id order, unique per (user, recipe), with an existing user
      and recipe. */
  predicate CartOk(cart: seq<CartEntry>, next: nat, userIds: set<UserId>, recipeIds: set<RecipeId>)
  {
    && CartOrdered(cart)
    && forall e :: e in cart ==> e.id < next && e.user in userIds && e.recipe in recipeIds
  }

  predicate FavouritesOk(favourites: set<Favourite>, userIds: set<UserId>, recipeIds: set<RecipeId>)
  {
    forall f :: f in favourites ==> f.user in userIds && f.recipe in recipeIds
  }

  /** Subscriptions between existing users, never of a user to themself. */
  predicate SubscriptionsOk(subscriptions: set<Subscription>, userIds: set<UserId>)
  {
    forall s :: s in subscriptions ==> s.user in userIds && s.author in userIds && NotSelf(s)
  }

  /** The contents of every table at one moment. */
  datatype Tables = Tables(
    users: map<UserId, User>, nextUserId: nat,
    tags: map<TagId, Tag>, nextTagId: nat,
    ingredients: map<IngredientId, Ingredient>, nextIngredientId: nat,
    recipes: map<RecipeId, Recipe>, nextRecipeId: nat,
    amounts: seq<AmountRow>,
    cart: seq<CartEntry>, nextCartId: nat,
    favourites: set<Favourite>,
    subscriptions: set<Subscription>)
  {
    /** Every constraint of the models holds. */
    predicate Ok()
    {
      && UsersOk(users, nextUserId)
      && TagsOk(tags, nextTagId)
      && IngredientsOk(ingredients, nextIngredientId)
      && RecipesOk(recipes, nextRecipeId, users.Keys, tags.Keys)
      && AmountsOk(amounts, recipes.Keys, ingredients.Keys)
      && CartOk(cart, nextCartId, users.Keys, recipes.Keys)
      && FavouritesOk(favourites, users.Keys, recipes.Keys)
      && SubscriptionsOk(subscriptions, users.Keys)
    }
  }

  // ---------------------------------------------------------------------
  // What a DELETE takes with it
  // ---------------------------------------------------------------------

  /** The amount rows of recipe `id`, and all the others. */
  function OfRecipe(id: RecipeId): AmountRow -> bool
  {
    (row: AmountRow) => row.recipe == id
  }

  function NotOfRecipe(id: RecipeId): AmountRow -> bool
  {
    (row: AmountRow) => row.recipe != id
  }

  function RowsWithoutRecipe(amounts: seq<AmountRow>, id: RecipeId): (r: seq<AmountRow>)
    ensures forall row :: row in r <==> row in amounts && row.recipe != id
  {
    Collections.Filter(amounts, NotOfRecipe(id))
  }

  function RowsWithoutIngredient(amounts: seq<AmountRow>, id: IngredientId): (r: seq<AmountRow>)
    ensures forall row :: row in r <==> row in amounts && row.ingredient != id
  {
    Collections.Filter(amounts, (row: AmountRow) => row.ingredient != id)
  }

  lemma FilterKeepsCartOrder(cart: seq<CartEntry>, keep: CartEntry -> bool)
    ensures CartOrdered(cart) ==> CartOrdered(Collections.Filter(cart, keep))
  {
    if CartOrdered(cart) {
      Collections.FilterSorted(cart, keep, CartBefore);
    }
  }

  function CartWithoutRecipe(cart: seq<CartEntry>, id: RecipeId): (r: seq<CartEntry>)
    ensures forall e :: e in r <==> e in cart && e.recipe != id
    ensures CartOrdered(cart) ==> CartOrdered(r)
  {
    FilterKeepsCartOrder(cart, (e: CartEntry) => e.recipe != id);
    Collections.Filter(cart, (e: CartEntry) => e.recipe != id)
  }

  function CartWithoutUser(cart: seq<CartEntry>, id: UserId): (r: seq<CartEntry>)
    ensures forall e :: e in r <==> e in cart && e.user != id
    ensures CartOrdered(cart) ==> CartOrdered(r)
  {
    FilterKeepsCartOrder(cart, (e: CartEntry) => e.user != id);
    Collections.Filter(cart, (e: CartEntry) => e.user != id)
  }

  function FavouritesWithoutRecipe(favourites: set<Favourite>, id: RecipeId): (r: set<Favourite>)
    ensures forall f :: f in r <==> f in favourites && f.recipe != id
  {
    set f | f in favourites && f.recipe != id
  }

  function FavouritesWithoutUser(favourites: set<Favourite>, id: UserId): (r: set<Favourite>)
    ensures forall f :: f in r <==> f in favourites && f.user != id
  {
    set f | f in favourites && f.user != id
  }

  /** Both foreign keys of a subscription cascade. */
  function SubscriptionsWithoutUser(subscriptions: set<Subscription>, id: UserId): (r: set<Subscription>)
    ensures forall s :: s in r <==> s in subscriptions && s.user != id && s.author != id
  {
    set s | s in subscriptions && s.user != id && s.author != id
  }

  /** The recipes after their author `id` is deleted: SET_NULL. */
  function WithoutAuthor(recipes: map<RecipeId, Recipe>, id: UserId): (r: map<RecipeId, Recipe>)
    ensures r.Keys == recipes.Keys
    ensures forall k :: k in r ==> r[k].author != Some(id)
    ensures forall k :: k in r ==> r[k] == if recipes[k].author == Some(id) then recipes[k].(author := None) else recipes[k]
  {
    map k | k in recipes :: if recipes[k].author == Some(id) then recipes[k].(author := None) else recipes[k]
  }

  /** The recipes after tag `id` is deleted. */
  function WithoutTag(recipes: map<RecipeId, Recipe>, id: TagId): (r: map<RecipeId, Recipe>)
    ensures r.Keys == recipes.Keys
    ensures forall k :: k in r ==> id !in r[k].tags && r[k] == recipes[k].(tags := recipes[k].tags - {id})
  {
    map k | k in recipes :: recipes[k].(tags := recipes[k].tags - {id})
  }

  /** Nulling an author keeps the constraints of the recipe table: a recipe
      without an author collides with no other. */
  lemma WithoutAuthorOk(recipes: map<RecipeId, Recipe>, next: nat, userIds: set<UserId>, tagIds: set<TagId>, id: UserId)
    requires RecipesOk(recipes, next, userIds, tagIds)
    ensures RecipesOk(WithoutAuthor(recipes, id), next, userIds - {id}, tagIds)
  {
    var rs := WithoutAuthor(recipes, id);
    forall a, b | a in rs && b in rs && a != b && rs[a].author.Some? && rs[a].author == rs[b].author
      ensures rs[a].name != rs[b].name
    {
      assert recipes[a].author == rs[a].author && recipes[b].author == rs[b].author;
    }
  }

  lemma DeleteRecipeKeepsOk(t: Tables, id: RecipeId)
    requires t.Ok()
    ensures t.(recipes := t.recipes - {id},
               amounts := RowsWithoutRecipe(t.amounts, id),
               cart := CartWithoutRecipe(t.cart, id),
               favourites := FavouritesWithoutRecipe(t.favourites, id)).Ok()
  {
  }

  lemma DeleteUserKeepsOk(t: Tables, id: UserId)
    requires t.Ok()
    ensures t.(users := t.users - {id},
               recipes := WithoutAuthor(t.recipes, id),
               cart := CartWithoutUser(t.cart, id),
               favourites := FavouritesWithoutUser(t.favourites, id),
               subscriptions := SubscriptionsWithoutUser(t.subscriptions, id)).Ok()
  {
    WithoutAuthorOk(t.recipes, t.nextRecipeId, t.users.Keys, t.tags.Keys, id);
    assert (t.users - {id}).Keys == t.users.Keys - {id};
    assert WithoutAuthor(t.recipes, id).Keys == t.recipes.Keys;
  }

  lemma DeleteIngredientKeepsOk(t: Tables, id: IngredientId)
    requires t.Ok()
    ensures t.(ingredients := t.ingredients - {id}, amounts := RowsWithoutIngredient(t.amounts, id)).Ok()
  {
  }

  lemma DeleteTagKeepsOk(t: Tables, id: TagId)
    requires t.Ok()
    ensures t.(tags := t.tags - {id}, recipes := WithoutTag(t.recipes, id)).Ok()
  {
    var rs := WithoutTag(t.recipes, id);
    assert UniqueRecipeNames(rs) by {
      forall a, b | a in rs && b in rs && a != b && rs[a].author.Some? && rs[a].author == rs[b].author
        ensures rs[a].name != rs[b].name
      {
        assert t.recipes[a].author == rs[a].author && t.recipes[b].author == rs[b].author;
      }
    }
  }

  // ---------------------------------------------------------------------
  // Row by row changes made by the views and serializers
  // ---------------------------------------------------------------------

  /** The cart rows that are not of `user` and `recipe`. */
  function OtherPair(user: UserId, recipe: RecipeId): CartEntry -> bool
  {
    (e: CartEntry) => e.user != user || e.recipe != recipe
  }

  /** `user.shopping_cart.filter(recipe=recipe).delete()`. */
  function CartWithoutPair(cart: seq<CartEntry>, user: UserId, recipe: RecipeId): (r: seq<CartEntry>)
    ensures forall e :: e in r <==> e in cart && (e.user != user || e.recipe != recipe)
    ensures CartOrdered(cart) ==> CartOrdered(r)
    ensures !HasCartPair(r, user, recipe)
  {
    var keep := OtherPair(user, recipe);
    FilterKeepsCartOrder(cart, keep);
    var r := Collections.Filter(cart, keep);
    assert !HasCartPair(r, user, recipe) by {
      forall i | 0 <= i < |r| ensures r[i].user != user || r[i].recipe != recipe {
        assert r[i] in r;
      }
    }
    r
  }

  /** A new cart row takes the next id, which is above every id in use. */
  lemma AddCartRowKeepsOk(t: Tables, user: UserId, recipe: RecipeId)
    requires t.Ok() && user in t.users && recipe in t.recipes
    requires !HasCartPair(t.cart, user, recipe)
    ensures t.(cart := t.cart + [CartEntry(t.nextCartId, user, recipe)], nextCartId := t.nextCartId + 1).Ok()
  {
    var e := CartEntry(t.nextCartId, user, recipe);
    var c := t.cart + [e];
    forall i, j | 0 <= i < j < |c| ensures CartBefore(c[i], c[j]) {
      if j < |t.cart| {
        assert c[i] == t.cart[i] && c[j] == t.cart[j];
      } else {
        assert c[i] == t.cart[i] && t.cart[i] in t.cart;
      }
    }
  }

  lemma RemoveCartPairKeepsOk(t: Tables, user: UserId, recipe: RecipeId)
    requires t.Ok()
    ensures t.(cart := CartWithoutPair(t.cart, user, recipe)).Ok()
  {
  }

  lemma ChangeFavouritesKeepsOk(t: Tables, favourites: set<Favourite>)
    requires t.Ok()
    requires forall f :: f in favourites ==> f.user in t.users && f.recipe in t.recipes
    ensures t.(favourites := favourites).Ok()
  {
  }

  lemma ChangeSubscriptionsKeepsOk(t: Tables, subscriptions: set<Subscription>)
    requires t.Ok()
    requires forall s :: s in subscriptions ==> s.user in t.users && s.author in t.users && NotSelf(s)
    ensures t.(subscriptions := subscriptions).Ok()
  {
  }

  /** An amount row for an existing recipe and ingredient with a valid amount. */
  predicate RowFits(t: Tables, row: AmountRow)
  {
    row.recipe in t.recipes && row.ingredient in t.ingredients && ValidSmallPositive(row.amount)
  }

  lemma AppendRowKeepsOk(t: Tables, row: AmountRow)
    requires t.Ok() && RowFits(t, row)
    ensures t.(amounts := t.amounts + [row]).Ok()
  {
  }

  class Store {
    var users: map<UserId, User>
    var nextUserId: nat
    var tags: map<TagId, Tag>
    var nextTagId: nat
    var ingredients: map<IngredientId, Ingredient>
    var nextIngredientId: nat
    var recipes: map<RecipeId, Recipe>
    var nextRecipeId: nat
    var amounts: seq<AmountRow>
    var cart: seq<CartEntry>
    var nextCartId: nat
    var favourites: set<Favourite>
    var subscriptions: set<Subscription>

    function Snapshot(): Tables
      reads this
    {
      Tables(users, nextUserId, tags, nextTagId, ingredients, nextIngredientId,
        recipes, nextRecipeId, amounts, cart, nextCartId, favourites, subscriptions)
    }

    predicate Valid()
      reads this
    {
      Snapshot().Ok()
    }

    /** An empty database. */
    constructor ()
      ensures Valid()
      ensures users == map[] && tags == map[] && ingredients == map[] && recipes == map[]
      ensures amounts == [] && cart == [] && favourites == {} && subscriptions == {}
    {
      users, tags, ingredients, recipes := map[], map[], map[], map[];
      nextUserId, nextTagId, nextIngredientId, nextRecipeId, nextCartId := 0, 0, 0, 0, 0;
      amounts, cart, favourites, subscriptions := [], [], {}, {};
    }

    /** Deleting a recipe deletes, by CASCADE, its amount rows, the cart rows
        and the favourites that point to it. */
    method DeleteRecipe(id: RecipeId)
      requires Valid() && id in recipes
      modifies this`recipes, this`amounts, this`cart, this`favourites
      ensures Valid()
      ensures recipes == old(recipes) - {id}
      ensures amounts == RowsWithoutRecipe(old(amounts), id)
      ensures cart == CartWithoutRecipe(old(cart), id)
      ensures favourites == FavouritesWithoutRecipe(old(favourites), id)
    {
      var t := Snapshot();
      DeleteRecipeKeepsOk(t, id);
      recipes, amounts, cart, favourites :=
        recipes - {id}, RowsWithoutRecipe(amounts, id), CartWithoutRecipe(cart, id), FavouritesWithoutRecipe(favourites, id);
      assert Snapshot() == t.(recipes := recipes, amounts := amounts, cart := cart, favourites := favourites);
    }

    /** Deleting a user sets the author of their recipes to NULL (SET_NULL)
        and deletes, by CASCADE, their cart rows, their favourites and every
        subscription in which they are the subscriber or the author. */
    method DeleteUser(id: UserId)
      requires Valid() && id in users
      modifies this`users, this`recipes, this`cart, this`favourites, this`subscriptions
      ensures Valid()
      ensures users == old(users) - {id}
      ensures recipes == WithoutAuthor(old(recipes), id)
      ensures cart == CartWithoutUser(old(cart), id)
      ensures favourites == FavouritesWithoutUser(old(favourites), id)
      ensures subscriptions == SubscriptionsWithoutUser(old(subscriptions), id)
    {
      var t := Snapshot();
      DeleteUserKeepsOk(t, id);
      users, recipes, cart, favourites, subscriptions :=
        users - {id}, WithoutAuthor(recipes, id), CartWithoutUser(cart, id),
        FavouritesWithoutUser(favourites, id), SubscriptionsWithoutUser(subscriptions, id);
      assert Snapshot() == t.(users := users, recipes := recipes, cart := cart, favourites := favourites,
                              subscriptions := subscriptions);
    }

    /** Deleting an ingredient deletes, by CASCADE, the amount rows that use it. */
    method DeleteIngredient(id: IngredientId)
      requires Valid() && id in ingredients
      modifies this`ingredients, this`amounts
      ensures Valid()
      ensures ingredients == old(ingredients) - {id}
      ensures amounts == RowsWithoutIngredient(old(amounts), id)
    {
      var t := Snapshot();
      DeleteIngredientKeepsOk(t, id);
      ingredients, amounts := ingredients - {id}, RowsWithoutIngredient(amounts, id);
      assert Snapshot() == t.(ingredients := ingredients, amounts := amounts);
    }

    /** Deleting a tag removes it from every recipe's tag set (the rows of the
        many-to-many table go by CASCADE). */
    method DeleteTag(id: TagId)
      requires Valid() && id in tags
      modifies this`tags, this`recipes
      ensures Valid()
      ensures tags == old(tags) - {id}
      ensures recipes == WithoutTag(old(recipes), id)
    {
      var t := Snapshot();
      DeleteTagKeepsOk(t, id);
      tags, recipes := tags - {id}, WithoutTag(recipes, id);
      assert Snapshot() == t.(tags := tags, recipes := recipes);
    }
  }
}
