/** The recipe and user serializers of api/serializers.py: the flags shown
    to each requester, the count of an author's recipes, and the writes of
    `create` and `update`, including the loop of `_create_ingredients` that
    inserts one amount row per entry of the request. */
module Serializers {
  import opened Text
  import Collections
  import Fields
  import opened Users
  import opened Recipes
  import opened Storage

  // ---------------------------------------------------------------------
  // Flags computed for the requester
  // ---------------------------------------------------------------------

  /** `get_is_favorited`: false for the anonymous user. */
  predicate IsFavorited(t: Tables, who: Requester, recipe: RecipeId)
  {
    who.Authenticated? && Favourite(who.id, recipe) in t.favourites
  }

  /** `get_is_in_shopping_cart`: whether the requester has a cart row for
      the recipe. */
  function IsInShoppingCart(t: Tables, who: Requester, recipe: RecipeId): (b: bool)
    ensures b <==> who.Authenticated? && exists e :: e in t.cart && e.user == who.id && e.recipe == recipe
  {
    if who.Anonymous? then false
    else
      var found := HasCartPair(t.cart, who.id, recipe);
      assert found ==> exists e :: e in t.cart && e.user == who.id && e.recipe == recipe by {
        if found {
          var i :| 0 <= i < |t.cart| && t.cart[i].user == who.id && t.cart[i].recipe == recipe;
          assert t.cart[i] in t.cart;
        }
      }
      found
  }

  /** `get_is_subscribed`: false for the anonymous user. */
  predicate IsSubscribed(t: Tables, who: Requester, author: UserId)
  {
    who.Authenticated? && Subscription(who.id, author) in t.subscriptions
  }

  /** Adding the requester's cart row for a recipe raises its flag, deleting
      the requester's rows for it lowers it, and neither changes the flag
      of any other recipe. */
  lemma CartFlagToggles(t: Tables, who: Requester, e: CartEntry, other: RecipeId)
    requires who.Authenticated? && e.user == who.id && other != e.recipe
    ensures IsInShoppingCart(t.(cart := t.cart + [e]), who, e.recipe)
    ensures !IsInShoppingCart(t.(cart := CartWithoutPair(t.cart, who.id, e.recipe)), who, e.recipe)
    ensures IsInShoppingCart(t.(cart := t.cart + [e]), who, other) == IsInShoppingCart(t, who, other)
    ensures IsInShoppingCart(t.(cart := CartWithoutPair(t.cart, who.id, e.recipe)), who, other) ==
      IsInShoppingCart(t, who, other)
  {
    assert e in t.cart + [e];
  }

  /** Adding the requester's favourite row for a recipe raises its flag,
      deleting it lowers it, and neither changes the flag of any other
      recipe; the anonymous requester's flag is always down. */
  lemma FavouriteFlagToggles(t: Tables, who: Requester, recipe: RecipeId, other: RecipeId)
    requires who.Authenticated? && other != recipe
    ensures IsFavorited(t.(favourites := t.favourites + {Favourite(who.id, recipe)}), who, recipe)
    ensures !IsFavorited(t.(favourites := t.favourites - {Favourite(who.id, recipe)}), who, recipe)
    ensures IsFavorited(t.(favourites := t.favourites + {Favourite(who.id, recipe)}), who, other) ==
      IsFavorited(t, who, other)
    ensures IsFavorited(t.(favourites := t.favourites - {Favourite(who.id, recipe)}), who, other) ==
      IsFavorited(t, who, other)
    ensures !IsFavorited(t, Anonymous, recipe)
  {
  }

  /** The same for subscriptions: the flag follows the requester's row for
      that author alone. */
  lemma SubscribedFlagToggles(t: Tables, who: Requester, author: UserId, other: UserId)
    requires who.Authenticated? && other != author
    ensures IsSubscribed(t.(subscriptions := t.subscriptions + {Subscription(who.id, author)}), who, author)
    ensures !IsSubscribed(t.(subscriptions := t.subscriptions - {Subscription(who.id, author)}), who, author)
    ensures IsSubscribed(t.(subscriptions := t.subscriptions + {Subscription(who.id, author)}), who, other) ==
      IsSubscribed(t, who, other)
    ensures IsSubscribed(t.(subscriptions := t.subscriptions - {Subscription(who.id, author)}), who, other) ==
      IsSubscribed(t, who, other)
    ensures !IsSubscribed(t, Anonymous, author)
  {
  }

  // ---------------------------------------------------------------------
  // An author's recipes
  // ---------------------------------------------------------------------

  /** The recipes whose author is `user`. */
  function Authored(recipes: map<RecipeId, Recipe>, user: UserId): set<RecipeId>
  {
    set id | id in recipes && recipes[id].author == Some(user)
  }

  function ByAuthor(recipes: map<RecipeId, Recipe>, user: UserId): RecipeId -> bool
  {
    (id: RecipeId) => id in recipes && recipes[id].author == Some(user)
  }

  /** `obj.recipes.all()` of `get_recipes`: the user's recipes, each once,
      newest first. */
  function AuthorRecipes(t: Tables, user: UserId): (r: seq<RecipeId>)
    ensures forall id :: id in r <==> id in t.recipes && id < t.nextRecipeId && t.recipes[id].author == Some(user)
    ensures Collections.Distinct(r)
    ensures forall i, j :: 0 <= i < j < |r| ==> t.recipes[r[i]].pubDate >= t.recipes[r[j]].pubDate
  {
    var r := Collections.Filter(RecipeListing(t.recipes, t.nextRecipeId), ByAuthor(t.recipes, user));
    AuthorMembers(t, user, r);
    AuthorOrder(t, user, r);
    r
  }

  lemma AuthorMembers(t: Tables, user: UserId, r: seq<RecipeId>)
    requires r == Collections.Filter(RecipeListing(t.recipes, t.nextRecipeId), ByAuthor(t.recipes, user))
    ensures forall id :: id in r <==> id in t.recipes && id < t.nextRecipeId && t.recipes[id].author == Some(user)
    ensures Collections.Distinct(r)
  {
    Collections.FilterDistinct(RecipeListing(t.recipes, t.nextRecipeId), ByAuthor(t.recipes, user));
  }

  lemma AuthorOrder(t: Tables, user: UserId, r: seq<RecipeId>)
    requires r == Collections.Filter(RecipeListing(t.recipes, t.nextRecipeId), ByAuthor(t.recipes, user))
    ensures forall i, j :: 0 <= i < j < |r| ==> r[i] in t.recipes && r[j] in t.recipes && t.recipes[r[i]].pubDate >= t.recipes[r[j]].pubDate
  {
    var all := RecipeListing(t.recipes, t.nextRecipeId);
    var le := (a: RecipeId, b: RecipeId) => a in t.recipes && b in t.recipes && t.recipes[a].pubDate >= t.recipes[b].pubDate;
    assert Collections.SortedBy(all, le);
    Collections.FilterSorted(all, ByAuthor(t.recipes, user), le);
    assert Collections.SortedBy(r, le);
  }

  /** `get_recipes_count`: `obj.recipes.all().count()`. */
  function RecipesCount(t: Tables, user: UserId): nat
  {
    |AuthorRecipes(t, user)|
  }

  /** The count is the number of recipes that name the user as author. */
  lemma RecipesCountIsAuthored(t: Tables, user: UserId)
    requires t.Ok()
    ensures RecipesCount(t, user) == |Authored(t.recipes, user)|
  {
    CountBelowBound(t, user);
  }

  lemma CountBelowBound(t: Tables, user: UserId)
    requires forall id :: id in t.recipes ==> id < t.nextRecipeId
    ensures RecipesCount(t, user) == |Authored(t.recipes, user)|
  {
    var r := AuthorRecipes(t, user);
    Collections.DistinctCardinality(r);
    assert Collections.Members(r) == Authored(t.recipes, user);
  }

  /** A new recipe adds one to its author's count and nothing to anyone
      else's. */
  lemma AuthoredAfterInsert(recipes: map<RecipeId, Recipe>, id: RecipeId, r: Recipe, user: UserId)
    requires id !in recipes
    ensures |Authored(recipes[id := r], user)| == |Authored(recipes, user)| + (if r.author == Some(user) then 1 else 0)
  {
    if r.author == Some(user) {
      assert Authored(recipes[id := r], user) == Authored(recipes, user) + {id};
    } else {
      assert Authored(recipes[id := r], user) == Authored(recipes, user);
    }
  }

  // ---------------------------------------------------------------------
  // Validated request data
  // ---------------------------------------------------------------------

  /** One entry of the `ingredients` list: an ingredient and its amount. */
  datatype IngredientInput = IngredientInput(ingredient: IngredientId, amount: int)

  /** The validated data of a request that creates a recipe. */
  datatype RecipeInput = RecipeInput(
    name: string,
    image: Option<Fields.ContentFile>,
    text: string,
    cookingTime: int,
    tags: seq<TagId>,
    ingredients: seq<IngredientInput>)

  /** The validated data of a request that changes a recipe: None for a
      field the request leaves out. */
  datatype RecipePatch = RecipePatch(
    name: Option<string>,
    image: Option<Option<Fields.ContentFile>>,
    text: Option<string>,
    cookingTime: Option<int>,
    tags: Option<seq<TagId>>,
    ingredients: Option<seq<IngredientInput>>)

  /** What field validation ensures before `create` or `update` runs: the
      primary keys exist and the numbers pass their validators. */
  predicate EntriesFit(t: Tables, entries: seq<IngredientInput>)
  {
    forall e :: e in entries ==> e.ingredient in t.ingredients && ValidSmallPositive(e.amount)
  }

  predicate TagsExist(t: Tables, tags: seq<TagId>)
  {
    forall x :: x in tags ==> x in t.tags
  }

  predicate InputFits(t: Tables, input: RecipeInput)
  {
    ValidSmallPositive(input.cookingTime) && TagsExist(t, input.tags) && EntriesFit(t, input.ingredients)
  }

  predicate PatchFits(t: Tables, patch: RecipePatch)
  {
    && (patch.cookingTime.Some? ==> ValidSmallPositive(patch.cookingTime.value))
    && (patch.tags.Some? ==> TagsExist(t, patch.tags.value))
    && (patch.ingredients.Some? ==> EntriesFit(t, patch.ingredients.value))
  }

  /** `validated_data.get(key, current)`. */
  function Given<T>(field: Option<T>, current: T): T
  {
    if field.Some? then field.value else current
  }

  // ---------------------------------------------------------------------
  // Amount rows
  // ---------------------------------------------------------------------

  /** The rows `_create_ingredients` inserts for `entries`. */
  function RowsFor(recipe: RecipeId, entries: seq<IngredientInput>): (rows: seq<AmountRow>)
    ensures |rows| == |entries|
    ensures forall k :: 0 <= k < |entries| ==> rows[k] == AmountRow(recipe, entries[k].ingredient, entries[k].amount)
  {
    if entries == [] then []
    else
      var last := entries[|entries| - 1];
      RowsFor(recipe, entries[..|entries| - 1]) + [AmountRow(recipe, last.ingredient, last.amount)]
  }

  /** `recipe.ingredients.all()`: the rows of one recipe, in table order. */
  function RowsOf(amounts: seq<AmountRow>, id: RecipeId): seq<AmountRow>
  {
    Collections.Filter(amounts, OfRecipe(id))
  }

  /** Replacing a recipe's rows leaves it exactly the rows built from the
      request, one per entry and in the entries' order; duplicates included. */
  lemma RecreatedRows(amounts: seq<AmountRow>, id: RecipeId, entries: seq<IngredientInput>)
    ensures RowsOf(RowsWithoutRecipe(amounts, id) + RowsFor(id, entries), id) == RowsFor(id, entries)
  {
    var kept := RowsWithoutRecipe(amounts, id);
    var rows := RowsFor(id, entries);
    Collections.FilterAppend(kept, rows, OfRecipe(id));
    assert forall x :: x in kept ==> !OfRecipe(id)(x);
    Collections.FilterNone(kept, OfRecipe(id));
    assert forall i :: 0 <= i < |rows| ==> OfRecipe(id)(rows[i]);
    Collections.FilterAll(rows, OfRecipe(id));
  }

  /** Replacing a recipe's rows leaves the rows of every other recipe as
      they were. */
  lemma OtherRowsKept(amounts: seq<AmountRow>, id: RecipeId, other: RecipeId, entries: seq<IngredientInput>)
    requires other != id
    ensures RowsOf(RowsWithoutRecipe(amounts, id) + RowsFor(id, entries), other) == RowsOf(amounts, other)
  {
    var kept := RowsWithoutRecipe(amounts, id);
    Collections.FilterAppend(kept, RowsFor(id, entries), OfRecipe(other));
    Collections.FilterConjunction(amounts, NotOfRecipe(id), OfRecipe(other), OfRecipe(other));
    Collections.FilterNone(RowsFor(id, entries), OfRecipe(other));
  }

  /** A recipe just created has exactly the rows built from the request. */
  lemma CreatedRows(t: Tables, entries: seq<IngredientInput>)
    requires t.Ok()
    ensures RowsOf(t.amounts + RowsFor(t.nextRecipeId, entries), t.nextRecipeId) == RowsFor(t.nextRecipeId, entries)
  {
    var id := t.nextRecipeId;
    Collections.FilterAppend(t.amounts, RowsFor(id, entries), OfRecipe(id));
    Collections.FilterNone(t.amounts, OfRecipe(id));
    Collections.FilterAll(RowsFor(id, entries), OfRecipe(id));
  }

  // ---------------------------------------------------------------------
  // The constraints still hold after a write
  // ---------------------------------------------------------------------

  /** Another recipe of the same (non-NULL) author already has `name`. */
  predicate NameTaken(recipes: map<RecipeId, Recipe>, id: RecipeId, name: string)
    requires id in recipes
  {
    exists other :: other in recipes && other != id && recipes[id].author.Some? &&
      recipes[other].author == recipes[id].author && recipes[other].name == name
  }

  lemma OwnNameNotTaken(t: Tables, id: RecipeId)
    requires t.Ok() && id in t.recipes
    ensures !NameTaken(t.recipes, id, t.recipes[id].name)
  {
  }

  lemma InsertRecipeKeepsOk(t: Tables, r: Recipe)
    requires t.Ok() && r.author.Some? && r.author.value in t.users
    requires NameFree(t.recipes, r.name, r.author.value)
    requires r.tags <= t.tags.Keys && ValidSmallPositive(r.cookingTime)
    ensures t.nextRecipeId !in t.recipes
    ensures t.(recipes := t.recipes[t.nextRecipeId := r], nextRecipeId := t.nextRecipeId + 1).Ok()
  {
    var rs := t.recipes[t.nextRecipeId := r];
    forall a, b | a in rs && b in rs && a != b && rs[a].author.Some? && rs[a].author == rs[b].author
      ensures rs[a].name != rs[b].name
    {
      if a != t.nextRecipeId && b != t.nextRecipeId {
        assert rs[a] == t.recipes[a] && rs[b] == t.recipes[b];
      }
    }
  }

  lemma ReplaceRecipeKeepsOk(t: Tables, id: RecipeId, r: Recipe)
    requires t.Ok() && id in t.recipes && r.author == t.recipes[id].author
    requires !NameTaken(t.recipes, id, r.name)
    requires r.tags <= t.tags.Keys && ValidSmallPositive(r.cookingTime)
    ensures t.(recipes := t.recipes[id := r]).Ok()
  {
    var rs := t.recipes[id := r];
    forall a, b | a in rs && b in rs && a != b && rs[a].author.Some? && rs[a].author == rs[b].author
      ensures rs[a].name != rs[b].name
    {
      if a != id && b != id {
        assert rs[a] == t.recipes[a] && rs[b] == t.recipes[b];
      }
    }
  }

  lemma RemoveRowsKeepsOk(t: Tables, id: RecipeId)
    requires t.Ok()
    ensures t.(amounts := RowsWithoutRecipe(t.amounts, id)).Ok()
  {
  }

  // ---------------------------------------------------------------------
  // The writes
  // ---------------------------------------------------------------------

  /** `_create_ingredients`: one amount row per entry, in the entries'
      order; an ingredient named twice gets two rows. */
  method CreateIngredients(db: Store, recipe: RecipeId, entries: seq<IngredientInput>)
    requires db.Valid() && recipe in db.recipes && EntriesFit(db.Snapshot(), entries)
    modifies db`amounts
    ensures db.Valid()
    ensures db.amounts == old(db.amounts) + RowsFor(recipe, entries)
  {
    var i := 0;
    while i < |entries|
      invariant 0 <= i <= |entries|
      invariant db.Valid()
      invariant db.amounts == old(db.amounts) + RowsFor(recipe, entries[..i])
    {
      var row := AmountRow(recipe, entries[i].ingredient, entries[i].amount);
      assert entries[i] in entries;
      var t := db.Snapshot();
      AppendRowKeepsOk(t, row);
      db.amounts := db.amounts + [row];
      assert db.Snapshot() == t.(amounts := t.amounts + [row]);
      assert entries[..i + 1][..i] == entries[..i];
      i := i + 1;
    }
    assert entries[..i] == entries;
  }

  /** `create`: the author is the requester, whatever the request says; the
      tags are exactly the listed ones; the recipe takes the next id and the
      rows of its ingredients follow. A name the author already uses raises
      an IntegrityError before anything is written. */
  method Create(db: Store, who: Requester, input: RecipeInput, now: nat) returns (created: Option<RecipeId>)
    requires db.Valid() && who.Authenticated? && who.id in db.users
    requires InputFits(db.Snapshot(), input)
    modifies db`recipes, db`nextRecipeId, db`amounts
    ensures db.Valid()
    ensures created.None? <==> !NameFree(old(db.recipes), input.name, who.id)
    ensures created.None? ==>
      db.recipes == old(db.recipes) && db.nextRecipeId == old(db.nextRecipeId) && db.amounts == old(db.amounts)
    ensures created.Some? ==>
      && created.value == old(db.nextRecipeId)
      && created.value !in old(db.recipes)
      && db.nextRecipeId == old(db.nextRecipeId) + 1
      && db.recipes == old(db.recipes)[created.value :=
           Recipe(input.name, Some(who.id), input.text, input.cookingTime, input.image, Collections.Members(input.tags), now)]
      && db.amounts == old(db.amounts) + RowsFor(created.value, input.ingredients)
  {
    if !NameFree(db.recipes, input.name, who.id) {
      return None;
    }
    var id := db.nextRecipeId;
    var r := Recipe(input.name, Some(who.id), input.text, input.cookingTime, input.image, Collections.Members(input.tags), now);
    var t := db.Snapshot();
    InsertRecipeKeepsOk(t, r);
    db.recipes, db.nextRecipeId := db.recipes[id := r], id + 1;
    assert db.Snapshot() == t.(recipes := t.recipes[id := r], nextRecipeId := id + 1);
    CreateIngredients(db, id, input.ingredients);
    created := Some(id);
  }

  /** The tags that `update` leaves on a recipe: the given ones, or the
      old ones when the request has none. */
  function TagsAfter(before: Recipe, tags: Option<seq<TagId>>): set<TagId>
  {
    if tags.Some? then Collections.Members(tags.value) else before.tags
  }

  /** The tag step of `update`: when tags are given, `recipe.tags.clear()`
      then `recipe.tags.set(tags)` make the tag set exactly the given tags. */
  method SetTags(db: Store, id: RecipeId, tags: Option<seq<TagId>>)
    requires db.Valid() && id in db.recipes && (tags.Some? ==> TagsExist(db.Snapshot(), tags.value))
    modifies db`recipes
    ensures db.Valid()
    ensures db.recipes == old(db.recipes)[id := old(db.recipes)[id].(tags := TagsAfter(old(db.recipes)[id], tags))]
  {
    if tags.Some? {
      var r := db.recipes[id].(tags := Collections.Members(tags.value));
      OwnNameNotTaken(db.Snapshot(), id);
      var t := db.Snapshot();
      ReplaceRecipeKeepsOk(t, id, r);
      db.recipes := db.recipes[id := r];
      assert db.Snapshot() == t.(recipes := t.recipes[id := r]);
    } else {
      assert db.recipes == db.recipes[id := db.recipes[id]];
    }
  }

  /** The ingredient step of `update`: when entries are given, the recipe's
      rows are deleted and rows for the new entries appended. */
  method SetIngredients(db: Store, id: RecipeId, entries: Option<seq<IngredientInput>>)
    requires db.Valid() && id in db.recipes && (entries.Some? ==> EntriesFit(db.Snapshot(), entries.value))
    modifies db`amounts
    ensures db.Valid()
    ensures db.amounts ==
      if entries.Some? then RowsWithoutRecipe(old(db.amounts), id) + RowsFor(id, entries.value) else old(db.amounts)
  {
    if entries.Some? {
      var t := db.Snapshot();
      RemoveRowsKeepsOk(t, id);
      db.amounts := RowsWithoutRecipe(db.amounts, id);
      assert db.Snapshot() == t.(amounts := RowsWithoutRecipe(t.amounts, id));
      CreateIngredients(db, id, entries.value);
    }
  }

  /** `recipe.save()`: the row is written unless another recipe of the same
      author already has the name, in which case the database refuses it. */
  method Save(db: Store, id: RecipeId, changed: Recipe) returns (saved: bool)
    requires db.Valid() && id in db.recipes && changed.author == db.recipes[id].author
    requires changed.tags <= db.tags.Keys && ValidSmallPositive(changed.cookingTime)
    modifies db`recipes
    ensures db.Valid()
    ensures saved <==> !NameTaken(old(db.recipes), id, changed.name)
    ensures db.recipes == if saved then old(db.recipes)[id := changed] else old(db.recipes)
  {
    if NameTaken(db.recipes, id, changed.name) {
      return false;
    }
    var t := db.Snapshot();
    ReplaceRecipeKeepsOk(t, id, changed);
    db.recipes := db.recipes[id := changed];
    assert db.Snapshot() == t.(recipes := t.recipes[id := changed]);
    saved := true;
  }

  /** Whether a name is taken does not depend on the recipe's own row, as
      long as its author stays. */
  lemma NameTakenKeepsAuthor(recipes: map<RecipeId, Recipe>, id: RecipeId, r: Recipe, name: string)
    requires id in recipes && r.author == recipes[id].author
    ensures NameTaken(recipes[id := r], id, name) <==> NameTaken(recipes, id, name)
  {
    var rs := recipes[id := r];
    if NameTaken(rs, id, name) {
      var other :| other in rs && other != id && rs[id].author.Some? && rs[other].author == rs[id].author && rs[other].name == name;
      assert rs[other] == recipes[other];
    }
    if NameTaken(recipes, id, name) {
      var other :| other in recipes && other != id && recipes[id].author.Some? && recipes[other].author == recipes[id].author && recipes[other].name == name;
      assert rs[other] == recipes[other];
    }
  }

  /** Name, image, text and cooking time, each replaced when given. */
  function Edited(r: Recipe, patch: RecipePatch): Recipe
  {
    r.(name := Given(patch.name, r.name), image := Given(patch.image, r.image),
       text := Given(patch.text, r.text), cookingTime := Given(patch.cookingTime, r.cookingTime))
  }

  /** The recipes after the tag step and the save are the old ones with
      the one recipe patched. */
  lemma PatchedState(recipes: map<RecipeId, Recipe>, id: RecipeId, patch: RecipePatch, saved: bool,
                     tagged: map<RecipeId, Recipe>, after: map<RecipeId, Recipe>)
    requires id in recipes
    requires tagged == recipes[id := recipes[id].(tags := TagsAfter(recipes[id], patch.tags))]
    requires after == if saved then tagged[id := Edited(tagged[id], patch)] else tagged
    ensures after == recipes[id := Patched(recipes[id], patch, saved)]
  {
  }

  /** The recipe as `update` leaves it: the tags replaced when given, and
      name, image, text and cooking time replaced when given and the save
      went through. Author and publication date never change. */
  function Patched(before: Recipe, patch: RecipePatch, saved: bool): (after: Recipe)
    ensures after.author == before.author && after.pubDate == before.pubDate
    ensures after.tags == TagsAfter(before, patch.tags)
    ensures !saved ==> after == before.(tags := after.tags)
    ensures saved ==> after.name == Given(patch.name, before.name) && after.image == Given(patch.image, before.image)
    ensures saved ==> after.text == Given(patch.text, before.text) && after.cookingTime == Given(patch.cookingTime, before.cookingTime)
  {
    var tagged := before.(tags := TagsAfter(before, patch.tags));
    if saved then Edited(tagged, patch) else tagged
  }

  /** `update`: supplied tags replace the tag set; supplied ingredients
      replace the recipe's rows; then each of name, image, text and cooking
      time takes the supplied value or keeps its own, and the recipe is
      saved. The save fails with an IntegrityError (`saved` false) when
      another recipe of the same author has the new name; the tags and rows
      written before it stay written. */
  method Update(db: Store, id: RecipeId, patch: RecipePatch) returns (saved: bool)
    requires db.Valid() && id in db.recipes && PatchFits(db.Snapshot(), patch)
    modifies db`recipes, db`amounts
    ensures db.Valid()
    ensures saved <==> !NameTaken(old(db.recipes), id, Given(patch.name, old(db.recipes)[id].name))
    ensures db.recipes == old(db.recipes)[id := Patched(old(db.recipes)[id], patch, saved)]
    ensures db.amounts ==
      if patch.ingredients.Some? then RowsWithoutRecipe(old(db.amounts), id) + RowsFor(id, patch.ingredients.value)
      else old(db.amounts)
  {
    SetTags(db, id, patch.tags);
    ghost var tagged := db.recipes;
    SetIngredients(db, id, patch.ingredients);
    var r := db.recipes[id];
    var changed := Edited(r, patch);
    NameTakenKeepsAuthor(old(db.recipes), id, r, changed.name);
    saved := Save(db, id, changed);
    PatchedState(old(db.recipes), id, patch, saved, tagged, db.recipes);
  }
}
