# Foodgram backend core in Dafny

This project models the core of the Foodgram "grocery assistant" backend.
Users publish recipes built from tagged ingredients. They can favourite
recipes, put them in a shopping cart and subscribe to other authors. They
can also download the cart as a plain-text shopping list that sums the
amounts of every ingredient.

The model covers these parts:

- **Storage.dfy**: the database as one `Store` object.
  - The tables are users, tags, ingredients, recipes, ingredient amounts, cart rows, favourites and subscriptions.
  - `Tables.Ok` is the conjunction of the validators and constraints of `recipes/models.py` and `users/models.py` that the model covers: uniqueness, references, the HEX colour pattern, the value ranges of amounts and cooking times, and the cart's id order. The field validators listed under "Left out" are not part of it.
  - The delete methods carry out the CASCADE and SET_NULL rules and keep `Ok`.
- **Users.dfy, Recipes.dfy**: the entities, validators, unique constraints and default orderings.
- **Fields.dfy, Base64.dfy**: the Base64 image field (`data:image/...;base64,...` to a file).
- **Permissions.dfy**: `IsAdminOwnerOrReadOnly`.
- **Filters.dfy**: the ingredient search and the `RecipeFilters` filter set.
- **Serializers.dfy**:
  - the `is_subscribed`, `is_favorited` and `is_in_shopping_cart` flags;
  - the author's recipes and `recipes_count`;
  - recipe `create`, `update` and `_create_ingredients` as methods on the store.
- **Services.dfy**: `get_shopping_list`.
  - It joins the cart with the amounts, groups and sums per ingredient, lists the recipe names and renders the text.
- **Views.dfy**:
  - the `shopping_cart`, `favorite` and `subscribe` toggles as methods on the store;
  - the `subscriptions` listing;
  - `download_shopping_cart`.
- **Text.dfy, Collections.dfy**: string and sequence helpers: lower-casing, substring search, split and join, lexicographic order, number formatting, filtering and insertion sort.

The model treats three things as inputs:

- the current time, a `DateTime`;
- the user's full name, which stands for `get_full_name()`;
- the creation instant of a recipe.

Database ids are handed out by per-table counters kept in the store.

The code differs from the written design in two places, and the model follows the code:

- **Update is not atomic.** `update` replaces the tags and ingredient rows before `save()`. When `save()` then fails on the unique (name, author) constraint, those writes stay. `Serializers.Update` states this. This assumes Django's default of no transaction per request (`ATOMIC_REQUESTS` off); the settings file is not part of this model.
- **The HEX colour validator accepts a trailing newline.** Its pattern ends in `$`, which Python lets match before one final newline. `Recipes.ColourWithNewlineAccepted` shows this.

## Model

| member | source | states |
|---|---|---|
| Storage.Store.constructor | backend/foodgram/recipes/models.py:9-207 | an empty database satisfies every constraint |
| Storage.Store.DeleteRecipe | backend/foodgram/recipes/models.py:128-131 | deleting a recipe removes exactly its amount rows, cart rows and favourites; cart order and every constraint are kept |
| Storage.Store.DeleteUser | backend/foodgram/recipes/models.py:75-80 | deleting a user sets the author of their recipes to NULL and keeps those recipes; it removes their cart rows, favourites and subscriptions in both directions; every constraint is kept |
| Storage.Store.DeleteIngredient | backend/foodgram/recipes/models.py:123-127 | deleting an ingredient removes exactly the amount rows that use it; the constraints are kept |
| Storage.Store.DeleteTag | backend/foodgram/recipes/models.py:93-97 | deleting a tag removes it from every recipe's tag set and changes nothing else of the recipes |
| Storage.WithoutAuthorOk | backend/foodgram/recipes/models.py:75-80 | after SET_NULL the recipes still satisfy their constraints; orphaned recipes never collide on (name, author) |
| Storage.CartWithoutPair | backend/foodgram/recipes/models.py:168-173 | removing a (user, recipe) cart pair keeps every other row and the id order, and leaves no row for that pair |
| Storage.AddCartRowKeepsOk | backend/foodgram/recipes/models.py:150-173 | appending a cart row for an absent pair, with the next id, keeps uniqueness and the id order |
| Storage.ChangeSubscriptionsKeepsOk | backend/foodgram/users/models.py:63-72 | any set of subscriptions between existing users, none to oneself, satisfies the subscription constraints |
| Users.UserByEmail | backend/foodgram/users/models.py:31 | login by e-mail finds a user with that e-mail, and finds none exactly when no user has it |
| Users.EmailIdentifiesUser | backend/foodgram/users/models.py:11-15 | because e-mails are unique, logging in with a user's e-mail finds that user |
| Users.NewestFirst | backend/foodgram/users/models.py:37 | users listed by descending id: exactly the given users, each once |
| Recipes.ColourPatternMeaning | backend/foodgram/recipes/models.py:20-25 | the colour pattern accepts exactly "#" and 3 or 6 hex digits, optionally followed by one newline |
| Recipes.ColourPatternWithoutNewline | backend/foodgram/recipes/models.py:22 | on input that does not end in a newline, the pattern means "#" and 3 or 6 hex digits |
| Recipes.ColourWithNewlineAccepted | backend/foodgram/recipes/models.py:22 | "#fff" followed by a newline passes the validator but is not a HEX colour |
| Recipes.TagListing | backend/foodgram/recipes/models.py:36 | tags in name order: every tag once |
| Recipes.IngredientListing | backend/foodgram/recipes/models.py:57 | ingredients in name order: every ingredient once |
| Recipes.RecipeListing | backend/foodgram/recipes/models.py:107 | recipes newest first by publication date: every recipe once |
| Base64.Decode | backend/foodgram/api/fields.py:14 | a decoded string has a length that is a multiple of four, and three bytes per group less the padding |
| Base64.DecodeEncode | backend/foodgram/api/fields.py:14 | decoding the encoding of any byte string gives back those bytes |
| Base64.DecodeEncodeChar | backend/foodgram/api/fields.py:14 | every sextet's alphabet character decodes back to it |
| Text.Split | backend/foodgram/api/fields.py:12-13 | the pieces joined with the separator give back the string, and no piece contains the separator |
| Text.LastPieceAfterLastSeparator | backend/foodgram/api/fields.py:13 | the last piece after a split on "/" is what follows the last "/" |
| Fields.ToInternalValue | backend/foodgram/api/fields.py:10-16 | a value that is not a "data:image" string passes through unchanged; a data URL that does not split into exactly two parts at ";base64," is an unpacking error; otherwise it is a decoding error exactly when the payload is not valid Base64, and else a file named "temp." plus the extension of the part before the marker, holding the decoded payload |
| Fields.ExtensionAfterLastSlash | backend/foodgram/api/fields.py:13 | the extension is the whole format when it has no "/", and otherwise exactly what follows its last "/" |
| Fields.DataUrlRoundTrip | backend/foodgram/api/fields.py:10-16 | a data URL built from an extension and bytes decodes to a file "temp.<ext>" holding those bytes |
| Fields.ExactlyOnce | backend/foodgram/api/fields.py:12 | a string with the marker exactly once unpacks into the parts around it |
| Fields.ExtensionOfDataImage | backend/foodgram/api/fields.py:13 | the extension of "data:image/<ext>" is ext |
| Permissions.AnonymousOnlyReads | backend/foodgram/api/permissions.py:10-17 | an anonymous request is allowed exactly for safe methods |
| Permissions.ChangeNeedsOwnerOrSuperuser | backend/foodgram/api/permissions.py:10-17 | an unsafe request on a recipe is allowed exactly for a signed-in superuser or the recipe's author |
| Permissions.OrphanNeedsSuperuser | backend/foodgram/api/permissions.py:14-17 | a recipe without an author can be changed only by a superuser |
| Permissions.ReadingIsOpen | backend/foodgram/api/permissions.py:10-17 | safe methods are allowed to everyone |
| Filters.MatchesIsContainment | backend/foodgram/api/filters.py:30-31 | "starts with or contains, ignoring case" is the same as "contains, ignoring case" |
| Filters.SearchIngredients | backend/foodgram/api/filters.py:23-41 | the search returns exactly the ingredients whose name contains the joined terms, ignoring case, each once, ordered by prefix match first and then by lower-cased name |
| Filters.SearchRanking | backend/foodgram/api/filters.py:32-39 | in any list in search order, a later prefix match implies an earlier one, and names of equal rank come in ascending lower-cased order |
| Filters.RankThenKey | backend/foodgram/api/filters.py:32-39 | ordering by rank and then by lower-cased name puts prefix matches first and orders names of equal rank by their lower-cased form |
| Filters.FoundOnce | backend/foodgram/api/filters.py:30-31 | the filtered listing holds each matching ingredient once and nothing else |
| Filters.EmptyTermListsAll | backend/foodgram/api/filters.py:29-31 | an empty search lists every ingredient, all as prefix matches |
| Filters.InOrder | backend/foodgram/api/filters.py:32-39 | two ingredients in search order are ranked as the ordering promises |
| Filters.FilterRecipes | backend/foodgram/api/filters.py:44-79 | an unknown tag slug is an error; otherwise the result is exactly the recipes selected by tags (any of them), author and the favourite and cart flags, newest first |
| Filters.ChainMembers | backend/foodgram/api/filters.py:44-79 | applying the filters in turn keeps exactly the recipes that pass all of them |
| Filters.ChainOrder | backend/foodgram/api/filters.py:44-79 | filtering keeps the order of the listing |
| Filters.AnonymousIgnoresFlags | backend/foodgram/api/filters.py:61-79 | for an anonymous user the favourite and cart flags change nothing |
| Filters.FlagOff | backend/foodgram/api/filters.py:61-79 | for an anonymous user the favourite and cart filters keep every recipe, whatever their values |
| Filters.TagsAreAlternatives | backend/foodgram/api/filters.py:48-52 | a recipe carrying any of the requested tags is listed |
| Filters.FavouritesFilterAgrees | backend/foodgram/api/filters.py:61-69 | a recipe listed under an applicable favourite filter is one the serializer reports as favourited |
| Filters.CartFilterAgrees | backend/foodgram/api/filters.py:71-79 | a recipe listed under an applicable cart filter is one the serializer reports as in the cart |
| Serializers.CartFlagToggles | backend/foodgram/api/serializers.py:99-104 | adding the requester's cart row for a recipe sets its cart flag, deleting the requester's rows for it clears the flag, and neither changes the flag of another recipe |
| Serializers.FavouriteFlagToggles | backend/foodgram/api/serializers.py:92-97 | adding the requester's favourite sets the flag, removing it clears the flag, other recipes' flags are unchanged, and an anonymous requester never sees it set |
| Serializers.SubscribedFlagToggles | backend/foodgram/api/serializers.py:20-28 | adding the requester's subscription to an author sets the flag, removing it clears the flag, other authors' flags are unchanged, and an anonymous requester never sees it set |
| Serializers.AuthorRecipes | backend/foodgram/api/serializers.py:175-178 | an author's recipes are exactly those they wrote, each once, newest first |
| Serializers.RecipesCountIsAuthored | backend/foodgram/api/serializers.py:180-183 | recipes_count is the number of recipes the author wrote |
| Serializers.AuthoredAfterInsert | backend/foodgram/api/serializers.py:180-183 | creating a recipe raises its author's count by one and leaves other counts unchanged |
| Serializers.CreateIngredients | backend/foodgram/api/serializers.py:106-116 | one amount row is appended per entry, in entry order, and the constraints are kept |
| Serializers.Create | backend/foodgram/api/serializers.py:118-127 | a name the author already uses fails and changes nothing; otherwise the recipe is stored under a fresh id with the requester as author, the given tags and fields, and its ingredient rows |
| Serializers.Update | backend/foodgram/api/serializers.py:129-149 | the save fails exactly when another recipe of the author has the new name; the recipe becomes its patched form (tags replaced when given, each given field replaced only when the save succeeds); given ingredients replace the old rows even when the save fails; other recipes are untouched |
| Serializers.SetTags | backend/foodgram/api/serializers.py:132-135 | when tags are given, the recipe's tag set becomes exactly those tags; otherwise it is kept; the constraints hold and no other recipe changes |
| Serializers.SetIngredients | backend/foodgram/api/serializers.py:137-140 | when ingredients are given, the recipe's old rows are removed and one row per entry is appended in entry order; otherwise the rows are kept |
| Serializers.Save | backend/foodgram/api/serializers.py:147 | the save succeeds exactly when no other recipe of the same author has the new name, and only a successful save stores the changed recipe |
| Serializers.Patched | backend/foodgram/api/serializers.py:132-147 | the patched recipe keeps its author and publication date and carries the new tag set; after a successful save each of name, image, text and cooking time is the given value or else the old one; after a failed save the recipe differs from the old one only in its tags |
| Serializers.RecreatedRows | backend/foodgram/api/serializers.py:137-140 | after replacing the ingredients, the recipe's rows are exactly the new entries in order |
| Serializers.OtherRowsKept | backend/foodgram/api/serializers.py:139 | replacing one recipe's ingredients leaves every other recipe's rows as they were |
| Serializers.CreatedRows | backend/foodgram/api/serializers.py:123-125 | a new recipe's rows are exactly its entries in order |
| Serializers.InsertRecipeKeepsOk | backend/foodgram/recipes/models.py:108-113 | a new recipe with a free name, an existing author and tags, and a valid cooking time keeps the constraints |
| Serializers.ReplaceRecipeKeepsOk | backend/foodgram/recipes/models.py:108-113 | changing a recipe to a name its author does not use elsewhere keeps the constraints |
| Services.CartRows | backend/foodgram/api/services.py:13-15 | the joined rows are exactly the amount rows of recipes in the given cart entries |
| Services.CartRowsCount | backend/foodgram/api/services.py:13-15 | when the entries name distinct recipes, each amount row occurs in the join as often as in the table if its recipe is named, and not at all otherwise |
| Services.UserEntriesDistinct | backend/foodgram/recipes/models.py:168-173 | a user's cart rows name distinct recipes |
| Services.CartRowsAreCartAmounts | backend/foodgram/api/services.py:13-15 | the user's join holds exactly the amount rows whose recipe is in the user's cart, with the same multiplicity |
| Services.ShoppingTotals | backend/foodgram/api/services.py:13-17 | each line's total is the sum of the amounts of that ingredient over all amount rows of recipes in the user's cart, counting equal rows separately |
| Services.SumForPermutation | backend/foodgram/api/services.py:16 | the per-ingredient sum does not depend on row order |
| Services.GroupKeys | backend/foodgram/api/services.py:15-17 | the groups are the distinct (name, unit) pairs of the rows, sorted by name |
| Services.GroupKeysOrderIndependent | backend/foodgram/api/services.py:15-17 | the groups depend only on which rows there are |
| Services.Aggregate | backend/foodgram/api/services.py:13-17 | one line per distinct (name, unit) of the rows, in ascending name order, each line's total being the sum of that ingredient's amounts |
| Services.AggregateOrderIndependent | backend/foodgram/api/services.py:13-17 | the aggregated lines do not depend on row order |
| Services.ShoppingLinesCover | backend/foodgram/api/services.py:13-17 | an ingredient is listed exactly when some recipe in the user's cart uses it |
| Services.NewestFirst | backend/foodgram/api/services.py:10-11 | the user's cart rows, each once, in descending id order |
| Services.FormatDateReadsBack | backend/foodgram/api/services.py:28 | the "dd/mm/YYYY HH:MM" stamp is 16 characters, with its separators in place, and each field reads back as the date's value |
| Services.SectionSplits | backend/foodgram/api/services.py:18-23 | a section of one-line texts splits at newlines back into those texts |
| Services.IngredientTextsOneLineEach | backend/foodgram/api/services.py:18-23 | each ingredient takes exactly one line of the list |
| Services.ShoppingListLines | backend/foodgram/api/services.py:8-46 | read line by line, the list is the header lines (title, name, date, rule), one "name: total unit." line per ingredient group, the middle lines, one recipe name per cart row newest first, and the footer lines |
| Services.ReportLines | backend/foodgram/api/services.py:24-44 | the fixed frame around one-line header, ingredient and recipe texts splits back into exactly those lines |
| Services.LineKeyIsIngredient | backend/foodgram/api/services.py:13-17 | every line of the list is about an ingredient of the table or about the empty group of rows without one |
| Services.EmptyCartList | backend/foodgram/api/services.py:24-44 | with an empty cart the list is just the header, the middle rule block and the footer |
| Services.RecipeSectionReadsBack | backend/foodgram/api/services.py:10-38 | the recipe section lists the cart's recipe names newest first, one per line |
| Views.ToggleOutcomes | backend/foodgram/api/views.py:81-93 | a signed-in POST or DELETE on an existing recipe answers 201 exactly when it adds the row, 204 exactly when it removes it, and otherwise 400 with the message |
| Views.SelfSubscriptionRefused | backend/foodgram/api/views.py:156-160 | subscribing to oneself, or unsubscribing from oneself, is refused with 400 |
| Views.ShoppingCart | backend/foodgram/api/views.py:69-93 | the answer follows the toggle rules (401, then 200 for OPTIONS, then 405, then 404, then 201, 204 or 400); a 201 appends the (user, recipe) cart row, a 204 removes it, and any other answer changes nothing; after a 201, 204 or 400 the recipe is in the cart exactly when the method was POST; the constraints are kept |
| Views.Favorite | backend/foodgram/api/views.py:109-133 | as for the cart: a 201 adds the favourite, a 204 removes it, and anything else leaves favourites unchanged |
| Views.Subscribe | backend/foodgram/api/views.py:145-183 | a 201 adds the subscription, a 204 removes it, and anything else leaves subscriptions unchanged; a self-subscription is refused |
| Views.CartAddThenRemove | backend/foodgram/api/views.py:81-88 | adding a cart pair and then removing it restores the cart |
| Views.CartRemoveThenAdd | backend/foodgram/api/views.py:81-88 | removing a pair and then adding it again puts the pair back in the cart and keeps every other row |
| Views.Subscriptions | backend/foodgram/api/views.py:190-198 | the listed authors are exactly those the user subscribes to, by descending id |
| Views.FilenamesDiffer | backend/foodgram/api/views.py:103-106 | two different users never get the same download filename |
| Views.DownloadShoppingCart | backend/foodgram/api/views.py:95-107 | anonymous requests get 401 and methods other than GET, HEAD and OPTIONS are refused; otherwise the attachment is the user's shopping list as UTF-8 text, named after the username |

## Left out

- HTTP and Django REST framework machinery is abstracted to a verb, a requester and a reply status with an optional error message. This covers routing, content negotiation and serializer output, including the short recipe representation and `to_representation`.
- Views.ShoppingCart: the 201 body (the short recipe serialisation) is not modelled, only its status.
- Views.Subscribe: the 201 body (the subscription serialisation of the author) is not modelled.
- Views.DownloadShoppingCart: an OPTIONS request is modelled only as the framework's description reply, without its body.
- Authentication failures are all modelled as 401. The framework may answer 403 under another authentication scheme, and that setting is not part of this model.
- Pagination (`LimitPageNumberPagination`) is left out. Listings are modelled whole.
- The djoser user endpoints (registration, token login, password change) are left out. Only the e-mail login lookup is modelled.
- The clock and `get_full_name()` are inputs of the model, because they read the environment.
- `pub_date` is a given natural number, because `auto_now_add` reads the clock.
- Text.Lower: case folding covers ASCII letters only. The database's ILIKE and `Lower` use locale-aware folding, which the model cannot reproduce.
- ILIKE wildcards in the search term are not interpreted. The term is matched literally.
- Text.LexLt: names are ordered by code point. The database orders by its collation.
- Filters.SearchIngredients: ingredients with equal rank and equal lower-cased name come in ascending name order. The database leaves their order unspecified.
- Filters.SearchIngredients: `get_search_terms` is modelled as a given list of terms. Its splitting on commas and whitespace is not modelled.
- Filters.SearchRanking is stated over any list in search order. It does not recompute the search.
- Filters.FilterRecipes: an author value that is not a number is not modelled. The author filter compares a given user id.
- The `is_favorited` and `is_in_shopping_cart` filter values are modelled as optional reals. Only "non-zero" matters, and parsing the text into a decimal is not modelled.
- Services.Aggregate: lines with the same ingredient name are ordered by unit. The source orders by name only, so their order in the database is unspecified.
- Services.FormatDateReadsBack is stated for four-digit years. `%Y` on years below 1000 is not modelled.
- Base64.Decode is the strict decoder of RFC 4648, section 4. Python's default `b64decode` also rejects missing padding. It differs in two ways that are not modelled: it discards characters outside the alphabet, and it stops at the first complete padded group, ignoring anything after it.
- Fields.ToInternalValue: the image check done by the framework's `ImageField` (Pillow) after decoding is not modelled. The decoded file is the result.
- Serializers.Create: a name collision is modelled as a failed create that consumes no id. The database raises an IntegrityError and may or may not consume a sequence value.
- Database transactions, concurrency and races between requests are left out. Each operation runs alone.
- The admin site and the `import_ingredients` and `import_tags` management commands are not part of this model.
- Tables.Ok leaves out the field validators of the user and tag models: `UnicodeUsernameValidator` on the username, the e-mail syntax check of `EmailField`, the slug syntax check of `SlugField`, and every `max_length`. They only reject values at input, and no modelled operation depends on them.
- Amounts and cooking times are modelled as unbounded integers constrained to the positive small integer range by the validators. Sums over many rows are unbounded as in the database's `Sum`.
