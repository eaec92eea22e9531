/** The recipe tables of recipes/models.py: tags, ingredients, recipes, the
    ingredient amounts of a recipe, the shopping cart and the favourites,
    with their field validators, unique constraints and default orderings. */
module Recipes {
  import opened Text
  import Collections
  import Fields
  import Users

  type TagId = nat
  type IngredientId = nat
  type RecipeId = nat

  datatype Tag = Tag(name: string, colour: string, slug: string)

  datatype Ingredient = Ingredient(name: string, unit: string)

  /** A recipe; `author` is None once the author's account has been deleted
      (SET_NULL), and `pubDate` is the creation instant, set once. */
  datatype Recipe = Recipe(
    name: string,
    author: Option<Users.UserId>,
    text: string,
    cookingTime: int,
    image: Option<Fields.ContentFile>,
    tags: set<TagId>,
    pubDate: nat)

  /** A row of `IngredientAmountInRecipe`. */
  datatype AmountRow = AmountRow(recipe: RecipeId, ingredient: IngredientId, amount: int)

  /** A row of `ShoppingCart`, with its auto-incremented primary key. */
  datatype CartEntry = CartEntry(id: nat, user: Users.UserId, recipe: RecipeId)

  /** A row of `Favorites`. */
  datatype Favourite = Favourite(user: Users.UserId, recipe: RecipeId)

  // ---------------------------------------------------------------------
  // Field validators
  // ---------------------------------------------------------------------

  /** `MinValueValidator(1)` of `cooking_time` and of `amount`. */
  const MinValue: int := 1
  /** The upper end of a positive small integer field. */
  const MaxSmallInt: int := 32767

  predicate ValidSmallPositive(n: int)
  {
    MinValue <= n <= MaxSmallInt
  }

  predicate IsHexDigit(c: char)
  {
    '0' <= c <= '9' || 'a' <= c <= 'f' || 'A' <= c <= 'F'
  }

  predicate AllHex(t: string)
  {
    forall i :: 0 <= i < |t| ==> IsHexDigit(t[i])
  }

  /** What the colour is meant to be: `#` and then three or six hex digits. */
  predicate IsHexColour(s: string)
  {
    (|s| == 4 || |s| == 7) && s[0] == '#' && AllHex(s[1..])
  }

  /** Python's `$` without MULTILINE: the end of the string, or the position
      just before a newline that ends it. */
  predicate AtDollar(rest: string)
  {
    rest == [] || rest == "\n"
  }

  /** The colour validator as written: a regular-expression search for
      `^#([A-Fa-f0-9]{6}|[A-Fa-f0-9]{3})$`, trying six digits, then three,
      each followed by `$`. */
  predicate ColourPatternMatches(s: string)
  {
    && |s| >= 1 && s[0] == '#'
    && ((|s| >= 7 && AllHex(s[1..7]) && AtDollar(s[7..]))
        || (|s| >= 4 && AllHex(s[1..4]) && AtDollar(s[4..])))
  }

  /** The pattern accepts exactly the intended colours and those colours
      followed by one newline. */
  lemma ColourPatternMeaning(s: string)
    ensures ColourPatternMatches(s) <==>
      IsHexColour(s) || (|s| > 0 && s[|s| - 1] == '\n' && IsHexColour(s[..|s| - 1]))
  {
    if |s| == 4 {
      assert s[1..] == s[1..4];
    } else if |s| == 5 {
      assert s[..4][1..] == s[1..4];
    } else if |s| == 7 {
      assert s[1..] == s[1..7];
    } else if |s| == 8 {
      assert s[..7][1..] == s[1..7];
    }
  }

  /** On a value with no final newline the pattern is the intended check. */
  lemma ColourPatternWithoutNewline(s: string)
    requires |s| == 0 || s[|s| - 1] != '\n'
    ensures ColourPatternMatches(s) <==> IsHexColour(s)
  {
    ColourPatternMeaning(s);
  }

  /** A short colour followed by a newline passes the validator although it
      is not a colour. */
  lemma ColourWithNewlineAccepted()
    ensures ColourPatternMatches("#fff\n") && !IsHexColour("#fff\n")
  {
    assert "#fff\n"[1..4] == "fff";
    assert "#fff\n"[4..] == "\n";
  }

  predicate ValidTag(t: Tag)
  {
    ColourPatternMatches(t.colour)
  }

  // ---------------------------------------------------------------------
  // Unique constraints
  // ---------------------------------------------------------------------

  /** `unique=True` on the tag name and on the slug. */
  predicate UniqueTags(tags: map<TagId, Tag>)
  {
    forall a, b :: a in tags && b in tags && a != b ==>
      tags[a].name != tags[b].name && tags[a].slug != tags[b].slug
  }

  /** `unique_ingredient_measurement_unit`. */
  predicate UniqueIngredients(ingredients: map<IngredientId, Ingredient>)
  {
    forall a, b :: a in ingredients && b in ingredients && a != b ==> ingredients[a] != ingredients[b]
  }

  /** `unique_recipe_author`: a SQL unique constraint, so two recipes whose
      author is NULL never collide. */
  predicate UniqueRecipeNames(recipes: map<RecipeId, Recipe>)
  {
    forall a, b :: a in recipes && b in recipes && a != b && recipes[a].author.Some? && recipes[a].author == recipes[b].author ==>
      recipes[a].name != recipes[b].name
  }

  /** Whether `name` is free for a new recipe of `author`. */
  predicate NameFree(recipes: map<RecipeId, Recipe>, name: string, author: Users.UserId)
  {
    forall id :: id in recipes && recipes[id].author == Some(author) ==> recipes[id].name != name
  }

  /** Two cart rows in table order: ids increase (the rows were inserted in
      that order) and no (user, recipe) pair repeats (`unique_shopping_cart`). */
  predicate CartBefore(a: CartEntry, b: CartEntry)
  {
    a.id < b.id && (a.user != b.user || a.recipe != b.recipe)
  }

  predicate CartOrdered(cart: seq<CartEntry>)
  {
    Collections.SortedBy(cart, CartBefore)
  }

  /** `user.shopping_cart.filter(recipe=recipe).exists()`. */
  predicate HasCartPair(cart: seq<CartEntry>, user: Users.UserId, recipe: RecipeId)
  {
    exists i :: 0 <= i < |cart| && cart[i].user == user && cart[i].recipe == recipe
  }

  // ---------------------------------------------------------------------
  // Default orderings
  // ---------------------------------------------------------------------

  function TagName(tags: map<TagId, Tag>, id: TagId): string
  {
    if id in tags then tags[id].name else ""
  }

  function IngredientName(ingredients: map<IngredientId, Ingredient>, id: IngredientId): string
  {
    if id in ingredients then ingredients[id].name else ""
  }

  function PubDate(recipes: map<RecipeId, Recipe>, id: RecipeId): int
  {
    if id in recipes then recipes[id].pubDate else 0
  }

  /** `Tag.objects.all()`: every tag, in order of name. */
  function TagListing(tags: map<TagId, Tag>, bound: nat): (r: seq<TagId>)
    ensures forall x :: x in r <==> x in tags && x < bound
    ensures forall i, j :: 0 <= i < j < |r| ==> r[i] != r[j] && LexLe(tags[r[i]].name, tags[r[j]].name)
  {
    var ids := Collections.IdsBelow(tags.Keys, bound);
    var key := (id: TagId) => TagName(tags, id);
    Collections.ByKeyIsTotalPreorder(key);
    var r := Collections.Sort(ids, Collections.ByKey(key));
    Collections.SortedDistinct(ids, r);
    r
  }

  /** `Ingredient.objects.all()`: every ingredient, in order of name. */
  function IngredientListing(ingredients: map<IngredientId, Ingredient>, bound: nat): (r: seq<IngredientId>)
    ensures forall x :: x in r <==> x in ingredients && x < bound
    ensures forall i, j :: 0 <= i < j < |r| ==> r[i] != r[j] && LexLe(ingredients[r[i]].name, ingredients[r[j]].name)
  {
    var ids := Collections.IdsBelow(ingredients.Keys, bound);
    var key := (id: IngredientId) => IngredientName(ingredients, id);
    Collections.ByKeyIsTotalPreorder(key);
    var r := Collections.Sort(ids, Collections.ByKey(key));
    Collections.SortedDistinct(ids, r);
    r
  }

  /** `Recipe.objects.all()`: every recipe, newest publication first. */
  function RecipeListing(recipes: map<RecipeId, Recipe>, bound: nat): (r: seq<RecipeId>)
    ensures forall x :: x in r <==> x in recipes && x < bound
    ensures forall i, j :: 0 <= i < j < |r| ==> r[i] != r[j] && recipes[r[i]].pubDate >= recipes[r[j]].pubDate
  {
    var ids := Collections.IdsBelow(recipes.Keys, bound);
    var le := (a: RecipeId, b: RecipeId) => PubDate(recipes, a) >= PubDate(recipes, b);
    assert Collections.TotalPreorder(le);
    var r := Collections.Sort(ids, le);
    Collections.SortedDistinct(ids, r);
    r
  }
}
