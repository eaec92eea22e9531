/** The query filters of api/filters.py: the ingredient search, which keeps
    the names holding the search term in any case and lists those that
    start with it first, and the recipe filters by tag slugs, author,
    favourites and shopping cart. */
module Filters {
  import opened Text
  import Collections
  import opened Users
  import opened Recipes
  import opened Storage
  import Serializers

  // ---------------------------------------------------------------------
  // Ingredient search
  // ---------------------------------------------------------------------

  /** `name__istartswith`. */
  predicate StartsWithIgnoringCase(name: string, term: string)
  {
    Lower(term) <= Lower(name)
  }

  /** `name__icontains`. */
  predicate ContainsIgnoringCase(name: string, term: string)
  {
    Contains(Lower(name), Lower(term))
  }

  /** The search condition as written: starts with the term, or contains it. */
  predicate Matches(name: string, term: string)
  {
    StartsWithIgnoringCase(name, term) || ContainsIgnoringCase(name, term)
  }

  /** The first disjunct adds nothing: a name that starts with the term
      contains it. */
  lemma MatchesIsContainment(name: string, term: string)
    ensures Matches(name, term) <==> ContainsIgnoringCase(name, term)
  {
    if StartsWithIgnoringCase(name, term) {
      PrefixIsContained(Lower(name), Lower(term));
    }
  }

  /** `startswith_match`: 0 for a name that starts with the term, else 1. */
  function Rank(name: string, term: string): nat
  {
    if StartsWithIgnoringCase(name, term) then 0 else 1
  }

  /** The rank and the lower-cased name of an ingredient id. */
  function RankOf(ingredients: map<IngredientId, Ingredient>, term: string): IngredientId -> nat
  {
    (id: IngredientId) => Rank(IngredientName(ingredients, id), term)
  }

  function LowerName(ingredients: map<IngredientId, Ingredient>): IngredientId -> string
  {
    (id: IngredientId) => Lower(IngredientName(ingredients, id))
  }

  /** `order_by=["startswith_match", Lower("name")]`. */
  function SearchOrder(ingredients: map<IngredientId, Ingredient>, term: string): (IngredientId, IngredientId) -> bool
  {
    Collections.ByRankThenKey<IngredientId>(RankOf(ingredients, term), LowerName(ingredients))
  }

  /** The name test of an ingredient id. */
  function Found(ingredients: map<IngredientId, Ingredient>, term: string): IngredientId -> bool
  {
    (id: IngredientId) => id in ingredients && Matches(ingredients[id].name, term)
  }

  /** `IngredientSearchFilter.filter_queryset`: the search terms are joined
      with no separator; every ingredient whose name holds the term in any
      case is listed once, in the search order. */
  function SearchIngredients(ingredients: map<IngredientId, Ingredient>, bound: nat, terms: seq<string>): (r: seq<IngredientId>)
    ensures forall x :: x in r <==>
      x in ingredients && x < bound && ContainsIgnoringCase(ingredients[x].name, Collections.Flatten(terms))
    ensures Collections.Distinct(r)
    ensures Collections.SortedBy(r, SearchOrder(ingredients, Collections.Flatten(terms)))
  {
    var term := Collections.Flatten(terms);
    var r := InSearchOrder(ingredients, term, Collections.Filter(IngredientListing(ingredients, bound), Found(ingredients, term)));
    SearchSort(ingredients, bound, term, r);
    r
  }

  /** `order_by` with the search order. */
  function InSearchOrder(ingredients: map<IngredientId, Ingredient>, term: string, s: seq<IngredientId>): (r: seq<IngredientId>)
    ensures multiset(r) == multiset(s)
    ensures Collections.SortedBy(r, SearchOrder(ingredients, term))
  {
    Collections.ByRankThenKeyIsTotalPreorder<IngredientId>(RankOf(ingredients, term), LowerName(ingredients));
    Collections.Sort(s, SearchOrder(ingredients, term))
  }

  /** Any reordering of the found ingredients holds each of them once. */
  lemma SearchSort(ingredients: map<IngredientId, Ingredient>, bound: nat, term: string, r: seq<IngredientId>)
    requires multiset(r) == multiset(Collections.Filter(IngredientListing(ingredients, bound), Found(ingredients, term)))
    ensures forall x :: x in r <==> x in ingredients && x < bound && ContainsIgnoringCase(ingredients[x].name, term)
    ensures Collections.Distinct(r)
  {
    var found := Collections.Filter(IngredientListing(ingredients, bound), Found(ingredients, term));
    FoundOnce(ingredients, bound, term, found);
    Collections.SortedDistinct(found, r);
    assert forall x :: x in r <==> x in found;
  }

  /** Two names in search order: every name that starts with the term comes
      before every name that only contains it, and names of the same rank
      come in order of their lower-cased form. */
  predicate Ranked(a: string, b: string, term: string)
  {
    && (StartsWithIgnoringCase(b, term) ==> StartsWithIgnoringCase(a, term))
    && (Rank(a, term) == Rank(b, term) ==> LexLe(Lower(a), Lower(b)))
  }

  /** Any list in search order, and so the result of `SearchIngredients`,
      is ranked. */
  lemma SearchRanking(ingredients: map<IngredientId, Ingredient>, term: string, r: seq<IngredientId>)
    requires Collections.SortedBy(r, SearchOrder(ingredients, term))
    ensures forall i, j :: 0 <= i < j < |r| ==> Ranked(IngredientName(ingredients, r[i]), IngredientName(ingredients, r[j]), term)
  {
    forall i, j | 0 <= i < j < |r| ensures Ranked(IngredientName(ingredients, r[i]), IngredientName(ingredients, r[j]), term) {
      InOrder(ingredients, term, r[i], r[j]);
    }
  }

  /** The filtered ingredients, before ordering: each matching one, once. */
  lemma FoundOnce(ingredients: map<IngredientId, Ingredient>, bound: nat, term: string, found: seq<IngredientId>)
    requires found == Collections.Filter(IngredientListing(ingredients, bound), Found(ingredients, term))
    ensures Collections.Distinct(found)
    ensures forall x :: x in found <==> x in ingredients && x < bound && ContainsIgnoringCase(ingredients[x].name, term)
  {
    var all := IngredientListing(ingredients, bound);
    Collections.FilterDistinct(all, Found(ingredients, term));
    forall x | x in ingredients ensures Matches(ingredients[x].name, term) <==> ContainsIgnoringCase(ingredients[x].name, term) {
      MatchesIsContainment(ingredients[x].name, term);
    }
  }

  /** With no search term every ingredient is found and all rank alike, so
      the list is in order of lower-cased name. */
  lemma EmptyTermListsAll(ingredients: map<IngredientId, Ingredient>, bound: nat, id: IngredientId)
    requires id in ingredients && id < bound
    ensures id in SearchIngredients(ingredients, bound, [])
    ensures Rank(ingredients[id].name, "") == 0
  {
    var term, name := Collections.Flatten([]), ingredients[id].name;
    assert term == "" && Lower(term) == [];
    assert Rank(name, "") == 0 by {
      assert StartsWithIgnoringCase(name, "");
    }
    assert ContainsIgnoringCase(name, term) by {
      assert OccursAt(Lower(name), Lower(term), 0);
    }
  }

  /** What one step of the search order says about two ingredient names. */
  lemma InOrder(ingredients: map<IngredientId, Ingredient>, term: string, x: IngredientId, y: IngredientId)
    requires SearchOrder(ingredients, term)(x, y)
    ensures Ranked(IngredientName(ingredients, x), IngredientName(ingredients, y), term)
  {
    var a, b := IngredientName(ingredients, x), IngredientName(ingredients, y);
    assert Rank(a, term) < Rank(b, term) || (Rank(a, term) == Rank(b, term) && LexLe(Lower(a), Lower(b))) by {
      Collections.ByRankThenKeyHolds(RankOf(ingredients, term), LowerName(ingredients), x, y);
    }
    RankThenKey(a, b, term);
  }

  /** Ranked is the rank-then-lower-cased-name order on names. */
  lemma RankThenKey(a: string, b: string, term: string)
    requires Rank(a, term) < Rank(b, term) || (Rank(a, term) == Rank(b, term) && LexLe(Lower(a), Lower(b)))
    ensures Ranked(a, b, term)
  {
    if StartsWithIgnoringCase(b, term) {
      assert Rank(b, term) == 0;
    }
  }

  // ---------------------------------------------------------------------
  // Recipe filters
  // ---------------------------------------------------------------------

  /** The query parameters of the recipe list: `author` (an id), `tags`
      (slugs, repeated), and the numbers `is_favorited` and
      `is_in_shopping_cart`; None for a parameter left out. */
  datatype RecipeQuery = RecipeQuery(
    author: Option<UserId>,
    tags: seq<string>,
    isFavorited: Option<real>,
    isInShoppingCart: Option<real>)

  /** `if value and self.request.user.is_authenticated`: zero and an absent
      parameter are false. */
  predicate Applies(value: Option<real>, who: Requester)
  {
    value.Some? && value.value != 0.0 && who.Authenticated?
  }

  /** The tag choice field accepts only slugs of existing tags; any other
      slug fails validation. */
  predicate SlugsKnown(tags: map<TagId, Tag>, slugs: seq<string>)
  {
    forall s :: s in slugs ==> exists id :: id in tags && tags[id].slug == s
  }

  /** `tags__slug` in the chosen slugs: one matching tag is enough. */
  function ByTags(t: Tables, slugs: seq<string>): RecipeId -> bool
  {
    (id: RecipeId) => slugs == [] ||
      (id in t.recipes && exists tag :: tag in t.recipes[id].tags && tag in t.tags && t.tags[tag].slug in slugs)
  }

  function ByAuthor(t: Tables, author: Option<UserId>): RecipeId -> bool
  {
    (id: RecipeId) => author.None? || (id in t.recipes && t.recipes[id].author == author)
  }

  /** `filter_is_favorited`. */
  function ByFavourite(t: Tables, who: Requester, value: Option<real>): RecipeId -> bool
  {
    (id: RecipeId) => !Applies(value, who) || Serializers.IsFavorited(t, who, id)
  }

  /** `filter_is_in_shopping_cart`. */
  function ByCart(t: Tables, who: Requester, value: Option<real>): RecipeId -> bool
  {
    (id: RecipeId) => !Applies(value, who) || Serializers.IsInShoppingCart(t, who, id)
  }

  /** What the filters select, as one condition. */
  predicate Selected(t: Tables, who: Requester, q: RecipeQuery, id: RecipeId)
    requires id in t.recipes
  {
    var r := t.recipes[id];
    && (q.tags == [] || exists tag :: tag in r.tags && tag in t.tags && t.tags[tag].slug in q.tags)
    && (q.author.Some? ==> r.author == q.author)
    && (Applies(q.isFavorited, who) ==> Favourite(who.id, id) in t.favourites)
    && (Applies(q.isInShoppingCart, who) ==> exists e :: e in t.cart && e.user == who.id && e.recipe == id)
  }

  /** The four filters, in the order the filter set declares them. */
  function Chain(t: Tables, who: Requester, q: RecipeQuery, s: seq<RecipeId>): seq<RecipeId>
  {
    var byTags := Collections.Filter(s, ByTags(t, q.tags));
    var byAuthor := Collections.Filter(byTags, ByAuthor(t, q.author));
    var byFavourite := Collections.Filter(byAuthor, ByFavourite(t, who, q.isFavorited));
    Collections.Filter(byFavourite, ByCart(t, who, q.isInShoppingCart))
  }

  lemma ChainMembers(t: Tables, who: Requester, q: RecipeQuery, s: seq<RecipeId>, id: RecipeId)
    requires id in t.recipes
    ensures id in Chain(t, who, q, s) <==> id in s && Selected(t, who, q, id)
  {
    var byTags := Collections.Filter(s, ByTags(t, q.tags));
    var byAuthor := Collections.Filter(byTags, ByAuthor(t, q.author));
    var byFavourite := Collections.Filter(byAuthor, ByFavourite(t, who, q.isFavorited));
    assert id in Chain(t, who, q, s) <==> id in byFavourite && ByCart(t, who, q.isInShoppingCart)(id);
    assert id in byFavourite <==> id in byAuthor && ByFavourite(t, who, q.isFavorited)(id);
    assert id in byAuthor <==> id in byTags && ByAuthor(t, q.author)(id);
    assert id in byTags <==> id in s && ByTags(t, q.tags)(id);
    assert ByCart(t, who, q.isInShoppingCart)(id) <==>
      (Applies(q.isInShoppingCart, who) ==> exists e :: e in t.cart && e.user == who.id && e.recipe == id);
  }

  lemma ChainSubset(t: Tables, who: Requester, q: RecipeQuery, s: seq<RecipeId>)
    ensures forall id :: id in Chain(t, who, q, s) ==> id in s
  {
  }

  lemma ChainOrder(t: Tables, who: Requester, q: RecipeQuery, s: seq<RecipeId>, le: (RecipeId, RecipeId) -> bool)
    requires Collections.SortedBy(s, le)
    ensures Collections.SortedBy(Chain(t, who, q, s), le)
  {
    var byTags := Collections.Filter(s, ByTags(t, q.tags));
    var byAuthor := Collections.Filter(byTags, ByAuthor(t, q.author));
    var byFavourite := Collections.Filter(byAuthor, ByFavourite(t, who, q.isFavorited));
    Collections.FilterSorted(s, ByTags(t, q.tags), le);
    Collections.FilterSorted(byTags, ByAuthor(t, q.author), le);
    Collections.FilterSorted(byAuthor, ByFavourite(t, who, q.isFavorited), le);
    Collections.FilterSorted(byFavourite, ByCart(t, who, q.isInShoppingCart), le);
  }

  /** Newer publication first, and no recipe twice. */
  function NewerFirst(recipes: map<RecipeId, Recipe>): (RecipeId, RecipeId) -> bool
  {
    (a: RecipeId, b: RecipeId) => a != b && a in recipes && b in recipes && recipes[a].pubDate >= recipes[b].pubDate
  }

  /** `RecipeFilters` over `Recipe.objects.all()`: None when a slug is not a
      tag's (the 400 of a failed filter form); otherwise the recipes the
      filters select, each once, newest first. */
  function FilterRecipes(t: Tables, who: Requester, q: RecipeQuery): (r: Option<seq<RecipeId>>)
    ensures r.None? <==> !SlugsKnown(t.tags, q.tags)
    ensures r.Some? ==> forall id :: id in r.value <==> id in t.recipes && id < t.nextRecipeId && Selected(t, who, q, id)
    ensures r.Some? ==> Collections.SortedBy(r.value, NewerFirst(t.recipes))
  {
    if !SlugsKnown(t.tags, q.tags) then None
    else
      var result := Chain(t, who, q, RecipeListing(t.recipes, t.nextRecipeId));
      ListingChain(t, who, q);
      Some(result)
  }

  /** The filters over the full listing: exactly the selected recipes,
      newest first. */
  lemma ListingChain(t: Tables, who: Requester, q: RecipeQuery)
    ensures forall id :: id in Chain(t, who, q, RecipeListing(t.recipes, t.nextRecipeId)) <==>
      id in t.recipes && id < t.nextRecipeId && Selected(t, who, q, id)
    ensures Collections.SortedBy(Chain(t, who, q, RecipeListing(t.recipes, t.nextRecipeId)), NewerFirst(t.recipes))
  {
    var all := RecipeListing(t.recipes, t.nextRecipeId);
    var result := Chain(t, who, q, all);
    assert Collections.SortedBy(all, NewerFirst(t.recipes));
    ChainOrder(t, who, q, all, NewerFirst(t.recipes));
    ChainSubset(t, who, q, all);
    forall id | id in t.recipes ensures id in result <==> id in all && Selected(t, who, q, id) {
      ChainMembers(t, who, q, all, id);
    }
  }

  /** For the anonymous user the favourite and cart parameters change
      nothing. */
  lemma AnonymousIgnoresFlags(t: Tables, q: RecipeQuery)
    ensures FilterRecipes(t, Anonymous, q) == FilterRecipes(t, Anonymous, q.(isFavorited := None, isInShoppingCart := None))
  {
    if SlugsKnown(t.tags, q.tags) {
      ChainIgnoresFlags(t, q, RecipeListing(t.recipes, t.nextRecipeId));
    }
  }

  lemma ChainIgnoresFlags(t: Tables, q: RecipeQuery, s: seq<RecipeId>)
    ensures Chain(t, Anonymous, q, s) == Chain(t, Anonymous, q.(isFavorited := None, isInShoppingCart := None), s)
  {
    var s' := Collections.Filter(Collections.Filter(s, ByTags(t, q.tags)), ByAuthor(t, q.author));
    FlagOff(t, q.isFavorited, q.isInShoppingCart, s');
    FlagOff(t, None, None, s');
  }

  /** For the anonymous user a flag filter keeps every recipe. */
  lemma FlagOff(t: Tables, favourite: Option<real>, cart: Option<real>, s: seq<RecipeId>)
    ensures Collections.Filter(Collections.Filter(s, ByFavourite(t, Anonymous, favourite)), ByCart(t, Anonymous, cart)) == s
  {
    assert !Applies(favourite, Anonymous) && !Applies(cart, Anonymous);
    forall id: RecipeId ensures ByFavourite(t, Anonymous, favourite)(id) && ByCart(t, Anonymous, cart)(id) {
    }
    Collections.FilterAll(s, ByFavourite(t, Anonymous, favourite));
    Collections.FilterAll(s, ByCart(t, Anonymous, cart));
  }

  /** A recipe is kept by the tag filter when any one of its tags has a
      chosen slug, whatever its other tags. */
  lemma TagsAreAlternatives(t: Tables, who: Requester, q: RecipeQuery, id: RecipeId, tag: TagId)
    requires SlugsKnown(t.tags, q.tags) && q.author.None? && q.isFavorited.None? && q.isInShoppingCart.None?
    requires id in t.recipes && id < t.nextRecipeId && tag in t.recipes[id].tags && tag in t.tags && t.tags[tag].slug in q.tags
    ensures id in FilterRecipes(t, who, q).value
  {
  }

  /** With `is_favorited` set, a signed-in requester sees exactly the
      recipes marked as favourite for them. */
  lemma FavouritesFilterAgrees(t: Tables, who: Requester, q: RecipeQuery, id: RecipeId)
    requires SlugsKnown(t.tags, q.tags) && Applies(q.isFavorited, who)
    requires id in FilterRecipes(t, who, q).value
    ensures Serializers.IsFavorited(t, who, id)
  {
  }

  /** Likewise, every recipe the `is_in_shopping_cart=1` filter lets
      through is shown to the requester as in the cart. */
  lemma CartFilterAgrees(t: Tables, who: Requester, q: RecipeQuery, id: RecipeId)
    requires SlugsKnown(t.tags, q.tags) && Applies(q.isInShoppingCart, who)
    requires id in FilterRecipes(t, who, q).value
    ensures Serializers.IsInShoppingCart(t, who, id)
  {
  }
}
