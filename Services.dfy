/** The shopping list of api/services.py: the ingredient-amount rows of the
    recipes in a user's cart, grouped by ingredient name and measurement
    unit with their amounts summed, rendered with the names of those recipes
    into a fixed text report. The moment of the report and the user's full
    name come in as parameters. */
module Services {
  import opened Text
  import Collections
  import opened Users
  import opened Recipes
  import opened Storage

  // ---------------------------------------------------------------------
  // The join: the amount rows of the recipes in a user's cart
  // ---------------------------------------------------------------------

  /** The cart rows of `user`. */
  function OfUser(user: UserId): CartEntry -> bool
  {
    (e: CartEntry) => e.user == user
  }

  function EntriesOf(cart: seq<CartEntry>, user: UserId): seq<CartEntry>
  {
    Collections.Filter(cart, OfUser(user))
  }

  /** `IngredientAmountInRecipe.objects.filter(recipe__shopping_cart__user=user)`:
      the rows of each cart entry's recipe, once per entry. */
  function CartRows(amounts: seq<AmountRow>, entries: seq<CartEntry>): (r: seq<AmountRow>)
    ensures forall row :: row in r <==>
      row in amounts && exists e :: e in entries && e.recipe == row.recipe
  {
    if entries == [] then []
    else
      var rest := CartRows(amounts, entries[1..]);
      assert forall e :: e in entries <==> e == entries[0] || e in entries[1..];
      Collections.Filter(amounts, OfRecipe(entries[0].recipe)) + rest
  }

  /** No recipe is named by two of the entries. */
  predicate DistinctRecipes(entries: seq<CartEntry>)
  {
    forall i, j :: 0 <= i < j < |entries| ==> entries[i].recipe != entries[j].recipe
  }

  /** The join counts every amount row once per entry naming its recipe:
      with entries naming distinct recipes, a row occurs in the join
      exactly as often as in the table when its recipe is named, and not at
      all otherwise. Equal rows, which the table does not forbid, are all
      kept. */
  lemma {:induction false} CartRowsCount(amounts: seq<AmountRow>, entries: seq<CartEntry>, row: AmountRow)
    requires DistinctRecipes(entries)
    ensures multiset(CartRows(amounts, entries))[row] ==
      if exists e :: e in entries && e.recipe == row.recipe then multiset(amounts)[row] else 0
  {
    if entries != [] {
      var rest := entries[1..];
      assert DistinctRecipes(rest) by {
        forall i, j | 0 <= i < j < |rest| ensures rest[i].recipe != rest[j].recipe {
          assert rest[i] == entries[i + 1] && rest[j] == entries[j + 1];
        }
      }
      CartRowsCount(amounts, rest, row);
      Collections.FilterMultiset(amounts, OfRecipe(entries[0].recipe), row);
      assert forall e :: e in entries <==> e == entries[0] || e in rest;
      if row.recipe == entries[0].recipe {
        forall e | e in rest ensures e.recipe != row.recipe {
          var j :| 0 <= j < |rest| && rest[j] == e;
          assert entries[j + 1] == e;
        }
      }
    }
  }

  /** A user's cart rows name distinct recipes (`unique_shopping_cart`). */
  lemma UserEntriesDistinct(cart: seq<CartEntry>, user: UserId)
    requires CartOrdered(cart)
    ensures DistinctRecipes(EntriesOf(cart, user))
  {
    var mine := EntriesOf(cart, user);
    Collections.FilterSorted(cart, OfUser(user), CartBefore);
    forall i, j | 0 <= i < j < |mine| ensures mine[i].recipe != mine[j].recipe {
      assert CartBefore(mine[i], mine[j]);
      assert OfUser(user)(mine[i]) && OfUser(user)(mine[j]);
    }
  }

  /** The amount rows whose recipe is in the user's cart. */
  function InCart(cart: seq<CartEntry>, user: UserId): AmountRow -> bool
  {
    (row: AmountRow) => HasCartPair(cart, user, row.recipe)
  }

  /** The join holds exactly the rows of the table whose recipe is in the
      user's cart, each as often as in the table. */
  lemma CartRowsAreCartAmounts(t: Tables, user: UserId)
    requires CartOrdered(t.cart)
    ensures multiset(CartRows(t.amounts, EntriesOf(t.cart, user))) ==
      multiset(Collections.Filter(t.amounts, InCart(t.cart, user)))
  {
    var entries := EntriesOf(t.cart, user);
    UserEntriesDistinct(t.cart, user);
    forall row ensures multiset(CartRows(t.amounts, entries))[row] ==
      multiset(Collections.Filter(t.amounts, InCart(t.cart, user)))[row]
    {
      CartRowsCount(t.amounts, entries, row);
      Collections.FilterMultiset(t.amounts, InCart(t.cart, user), row);
      EntriesOfNames(t.cart, user, row.recipe);
    }
  }

  // ---------------------------------------------------------------------
  // Grouping and summing
  // ---------------------------------------------------------------------

  /** The group of a row: its ingredient, that is its (name, unit) pair,
      which `unique_ingredient_measurement_unit` makes a key. A row whose
      ingredient is missing, which a valid database never holds, falls in
      an empty group. */
  function KeyOf(ingredients: map<IngredientId, Ingredient>, row: AmountRow): Ingredient
  {
    if row.ingredient in ingredients then ingredients[row.ingredient] else Ingredient("", "")
  }

  /** `Sum('amount')` over the rows of group `k`. */
  function SumFor(ingredients: map<IngredientId, Ingredient>, rows: seq<AmountRow>, k: Ingredient): int
  {
    if rows == [] then 0
    else (if KeyOf(ingredients, rows[0]) == k then rows[0].amount else 0) + SumFor(ingredients, rows[1..], k)
  }

  lemma {:induction false} SumForAppend(ingredients: map<IngredientId, Ingredient>, a: seq<AmountRow>, b: seq<AmountRow>, k: Ingredient)
    ensures SumFor(ingredients, a + b, k) == SumFor(ingredients, a, k) + SumFor(ingredients, b, k)
  {
    if a == [] {
      assert a + b == b;
    } else {
      assert (a + b)[0] == a[0] && (a + b)[1..] == a[1..] + b;
      SumForAppend(ingredients, a[1..], b, k);
    }
  }

  /** Taking one row out of the middle takes its amount out of the sum. */
  lemma SumForRemove(ingredients: map<IngredientId, Ingredient>, b: seq<AmountRow>, i: nat, k: Ingredient)
    requires i < |b|
    ensures SumFor(ingredients, b, k) ==
      (if KeyOf(ingredients, b[i]) == k then b[i].amount else 0) + SumFor(ingredients, b[..i] + b[i + 1..], k)
  {
    var tail := [b[i]] + b[i + 1..];
    assert b == b[..i] + tail;
    assert tail[0] == b[i] && tail[1..] == b[i + 1..];
    SumForAppend(ingredients, b[..i], tail, k);
    SumForAppend(ingredients, b[..i], b[i + 1..], k);
  }

  lemma MultisetRemove<T>(a: seq<T>, b: seq<T>, i: nat)
    requires multiset(a) == multiset(b) && a != [] && i < |b| && b[i] == a[0]
    ensures multiset(a[1..]) == multiset(b[..i] + b[i + 1..])
  {
    assert a == [a[0]] + a[1..];
    assert b == b[..i] + [b[i]] + b[i + 1..];
    calc {
      multiset(a[1..]);
      multiset(a) - multiset{a[0]};
      multiset(b[..i]) + multiset{b[i]} + multiset(b[i + 1..]) - multiset{a[0]};
      multiset(b[..i] + b[i + 1..]);
    }
  }

  /** A sum does not depend on the order of the rows. */
  lemma {:induction false} SumForPermutation(ingredients: map<IngredientId, Ingredient>, a: seq<AmountRow>, b: seq<AmountRow>, k: Ingredient)
    requires multiset(a) == multiset(b)
    ensures SumFor(ingredients, a, k) == SumFor(ingredients, b, k)
    decreases |a|
  {
    if a == [] {
      assert |b| == |multiset(b)| == 0;
    } else {
      assert a[0] in multiset(b);
      var i :| 0 <= i < |b| && b[i] == a[0];
      MultisetRemove(a, b, i);
      SumForPermutation(ingredients, a[1..], b[..i] + b[i + 1..], k);
      SumForRemove(ingredients, b, i, k);
    }
  }

  /** The group of each row, in row order. */
  function KeysOf(ingredients: map<IngredientId, Ingredient>, rows: seq<AmountRow>): (r: seq<Ingredient>)
    ensures forall k :: k in r <==> exists row :: row in rows && KeyOf(ingredients, row) == k
  {
    if rows == [] then []
    else
      assert forall row :: row in rows <==> row == rows[0] || row in rows[1..];
      [KeyOf(ingredients, rows[0])] + KeysOf(ingredients, rows[1..])
  }

  /** `order_by('ingredient__name')`, with the measurement unit breaking the
      ties between groups of the same name. */
  predicate KeyLe(a: Ingredient, b: Ingredient)
  {
    LexLt(a.name, b.name) || (a.name == b.name && LexLe(a.unit, b.unit))
  }

  lemma KeyLeIsTotalPreorder()
    ensures Collections.TotalPreorder(KeyLe)
  {
    forall a, b ensures KeyLe(a, b) || KeyLe(b, a) {
      LexLtTrichotomy(a.name, b.name);
      LexLtTrichotomy(a.unit, b.unit);
    }
    forall a, b, c | KeyLe(a, b) && KeyLe(b, c) ensures KeyLe(a, c) {
      LexLtIrreflexive(a.name);
      LexLtIrreflexive(b.name);
      if a.name != b.name && b.name != c.name {
        LexLtTransitive(a.name, b.name, c.name);
      } else if a.name == b.name && b.name == c.name && a.unit != b.unit && b.unit != c.unit {
        LexLtTransitive(a.unit, b.unit, c.unit);
      }
    }
  }

  lemma KeyLeAntisymmetric(a: Ingredient, b: Ingredient)
    requires KeyLe(a, b) && KeyLe(b, a)
    ensures a == b
  {
    LexLtIrreflexive(a.name);
    if a.name != b.name {
      LexLtAsymmetric(a.name, b.name);
    } else if a.unit != b.unit {
      LexLtAsymmetric(a.unit, b.unit);
    }
  }

  /** The groups present among the rows, each once, in order. */
  function GroupKeys(ingredients: map<IngredientId, Ingredient>, rows: seq<AmountRow>): (keys: seq<Ingredient>)
    ensures Collections.SortedBy(keys, KeyLe)
    ensures Collections.Distinct(keys)
    ensures forall k :: k in keys <==> exists row :: row in rows && KeyOf(ingredients, row) == k
  {
    KeyLeIsTotalPreorder();
    var groups := Collections.Dedup(KeysOf(ingredients, rows));
    var keys := Collections.Sort(groups, KeyLe);
    Collections.SortedDistinct(groups, keys);
    keys
  }

  /** The groups depend on which rows there are, not on their order. */
  lemma GroupKeysOrderIndependent(ingredients: map<IngredientId, Ingredient>, a: seq<AmountRow>, b: seq<AmountRow>)
    requires forall row :: row in a <==> row in b
    ensures GroupKeys(ingredients, a) == GroupKeys(ingredients, b)
  {
    var ka, kb := GroupKeys(ingredients, a), GroupKeys(ingredients, b);
    Collections.DistinctSameMembers(ka, kb);
    forall x, y | x in ka && y in ka && KeyLe(x, y) && KeyLe(y, x) ensures x == y {
      KeyLeAntisymmetric(x, y);
    }
    Collections.SortedUnique(ka, kb, KeyLe);
  }

  /** One line of the grouped query: an ingredient and `sum_amount`. */
  datatype Line = Line(key: Ingredient, total: int)

  /** Some line is about group `k`. */
  predicate Listed(r: seq<Line>, k: Ingredient)
  {
    exists i :: 0 <= i < |r| && r[i].key == k
  }

  /** `.values('ingredient__name', 'ingredient__measurement_unit')
      .annotate(sum_amount=Sum('amount')).order_by('ingredient__name')`:
      one line per group present among the rows, holding the sum of that
      group's amounts, in order of name. */
  function Aggregate(ingredients: map<IngredientId, Ingredient>, rows: seq<AmountRow>): (r: seq<Line>)
    ensures forall i, j :: 0 <= i < j < |r| ==> LexLe(r[i].key.name, r[j].key.name)
    ensures forall i, j :: 0 <= i < j < |r| ==> KeyLe(r[i].key, r[j].key) && r[i].key != r[j].key
    ensures forall k :: Listed(r, k) <==> exists row :: row in rows && KeyOf(ingredients, row) == k
    ensures forall i :: 0 <= i < |r| ==> r[i].total == SumFor(ingredients, rows, r[i].key)
  {
    var keys := GroupKeys(ingredients, rows);
    var r := seq(|keys|, i requires 0 <= i < |keys| => Line(keys[i], SumFor(ingredients, rows, keys[i])));
    LineKeys(keys, r);
    r
  }

  lemma LineKeys(keys: seq<Ingredient>, r: seq<Line>)
    requires |r| == |keys| && forall i :: 0 <= i < |r| ==> r[i].key == keys[i]
    ensures forall k :: Listed(r, k) <==> k in keys
  {
    forall k ensures Listed(r, k) <==> k in keys {
      if k in keys {
        var i :| 0 <= i < |keys| && keys[i] == k;
        assert r[i].key == k;
      }
    }
  }

  /** The report's amounts depend on which rows there are, not on the order
      the database returns them in. */
  lemma AggregateOrderIndependent(ingredients: map<IngredientId, Ingredient>, a: seq<AmountRow>, b: seq<AmountRow>)
    requires multiset(a) == multiset(b)
    ensures Aggregate(ingredients, a) == Aggregate(ingredients, b)
  {
    forall row ensures row in a <==> row in b {
      assert row in a <==> row in multiset(a);
      assert row in b <==> row in multiset(b);
    }
    GroupKeysOrderIndependent(ingredients, a, b);
    forall k ensures SumFor(ingredients, a, k) == SumFor(ingredients, b, k) {
      SumForPermutation(ingredients, a, b, k);
    }
  }

  /** The grouped lines of a user's shopping list. */
  function ShoppingLines(t: Tables, user: UserId): seq<Line>
  {
    Aggregate(t.ingredients, CartRows(t.amounts, EntriesOf(t.cart, user)))
  }

  /** Each line's total is `Sum('amount')` over the amount rows of the
      recipes in the user's cart that fall in the line's group, counting
      equal rows separately. */
  lemma ShoppingTotals(t: Tables, user: UserId)
    requires CartOrdered(t.cart)
    ensures var lines := ShoppingLines(t, user);
      forall i :: 0 <= i < |lines| ==>
        lines[i].total == SumFor(t.ingredients, Collections.Filter(t.amounts, InCart(t.cart, user)), lines[i].key)
  {
    var rows := CartRows(t.amounts, EntriesOf(t.cart, user));
    var inCart := Collections.Filter(t.amounts, InCart(t.cart, user));
    CartRowsAreCartAmounts(t, user);
    var lines := ShoppingLines(t, user);
    forall i | 0 <= i < |lines|
      ensures lines[i].total == SumFor(t.ingredients, inCart, lines[i].key)
    {
      SumForPermutation(t.ingredients, rows, inCart, lines[i].key);
    }
  }

  /** In a valid database an amount row falls in the group of an
      ingredient exactly when it names that ingredient. */
  lemma KeyOfIdentifies(t: Tables, ingredient: IngredientId, row: AmountRow)
    requires t.Ok() && ingredient in t.ingredients && row in t.amounts
    ensures KeyOf(t.ingredients, row) == t.ingredients[ingredient] <==> row.ingredient == ingredient
  {
    assert row.ingredient in t.ingredients;
  }

  /** The user's cart rows name a recipe exactly when the user has it in
      the cart. */
  lemma EntriesOfNames(cart: seq<CartEntry>, user: UserId, recipe: RecipeId)
    ensures (exists e :: e in EntriesOf(cart, user) && e.recipe == recipe) <==> HasCartPair(cart, user, recipe)
  {
    if HasCartPair(cart, user, recipe) {
      var i :| 0 <= i < |cart| && cart[i].user == user && cart[i].recipe == recipe;
      assert cart[i] in EntriesOf(cart, user);
    }
    if exists e :: e in EntriesOf(cart, user) && e.recipe == recipe {
      var e :| e in EntriesOf(cart, user) && e.recipe == recipe;
      var i :| 0 <= i < |cart| && cart[i] == e;
    }
  }

  /** The list has a line for an ingredient exactly when some recipe in the
      user's cart uses it. */
  lemma ShoppingLinesCover(t: Tables, user: UserId, ingredient: IngredientId)
    requires t.Ok() && ingredient in t.ingredients
    ensures var lines := ShoppingLines(t, user);
      Listed(lines, t.ingredients[ingredient]) <==>
      exists row :: row in t.amounts && row.ingredient == ingredient && HasCartPair(t.cart, user, row.recipe)
  {
    var rows := CartRows(t.amounts, EntriesOf(t.cart, user));
    var k := t.ingredients[ingredient];
    forall row ensures (row in rows && KeyOf(t.ingredients, row) == k) <==>
      (row in t.amounts && row.ingredient == ingredient && HasCartPair(t.cart, user, row.recipe))
    {
      if row in t.amounts {
        KeyOfIdentifies(t, ingredient, row);
        EntriesOfNames(t.cart, user, row.recipe);
      }
    }
  }

  // ---------------------------------------------------------------------
  // The recipes of the list
  // ---------------------------------------------------------------------

  /** `ShoppingCart.objects.filter(user=user)` in the default ordering
      `('-id',)`: the user's cart rows, newest first. */
  function NewestFirst(cart: seq<CartEntry>, user: UserId): (r: seq<CartEntry>)
    requires CartOrdered(cart)
    ensures forall e :: e in r <==> e in cart && e.user == user
    ensures forall i, j :: 0 <= i < j < |r| ==> r[i].id > r[j].id
  {
    var mine := EntriesOf(cart, user);
    Collections.FilterSorted(cart, OfUser(user), CartBefore);
    var r := Collections.Reverse(mine);
    assert forall e :: e in r <==> e in mine by {
      forall e ensures e in r <==> e in mine {
        if e in mine {
          var i :| 0 <= i < |mine| && mine[i] == e;
          assert r[|mine| - 1 - i] == e;
        }
      }
    }
    r
  }

  function RecipeName(recipes: map<RecipeId, Recipe>, id: RecipeId): string
  {
    if id in recipes then recipes[id].name else ""
  }

  /** `.values('recipe__name')`. */
  function RecipeNames(recipes: map<RecipeId, Recipe>, entries: seq<CartEntry>): (r: seq<string>)
    ensures |r| == |entries|
    ensures forall i :: 0 <= i < |entries| ==> r[i] == RecipeName(recipes, entries[i].recipe)
  {
    seq(|entries|, i requires 0 <= i < |entries| => RecipeName(recipes, entries[i].recipe))
  }

  // ---------------------------------------------------------------------
  // Rendering
  // ---------------------------------------------------------------------

  /** The moment of the report, as `dt.now()` gives it. */
  datatype DateTime = DateTime(year: nat, month: nat, day: nat, hour: nat, minute: nat)
  {
    predicate Valid()
    {
      1 <= month <= 12 && 1 <= day <= 31 && hour < 24 && minute < 60
    }
  }

  /** `strftime("%d/%m/%Y %H:%M")`. */
  function FormatDate(d: DateTime): string
    requires d.Valid()
  {
    Pad2(d.day) + "/" + Pad2(d.month) + "/" + NatToString(d.year) + " " + Pad2(d.hour) + ":" + Pad2(d.minute)
  }

  lemma FourDigits(n: nat)
    requires 1000 <= n < 10000
    ensures |NatToString(n)| == 4
  {
    assert |NatToString(n / 1000)| == 1;
    assert |NatToString(n / 100)| == 2;
    assert |NatToString(n / 10)| == 3;
  }

  /** For a four-digit year the date reads back field by field. */
  lemma FormatDateReadsBack(d: DateTime)
    requires d.Valid() && 1000 <= d.year < 10000
    ensures var s := FormatDate(d);
      && |s| == 16 && s[2] == '/' && s[5] == '/' && s[10] == ' ' && s[13] == ':'
      && ParseNat(s[0..2]) == d.day && ParseNat(s[3..5]) == d.month && ParseNat(s[6..10]) == d.year
      && ParseNat(s[11..13]) == d.hour && ParseNat(s[14..16]) == d.minute
  {
    var s := FormatDate(d);
    FourDigits(d.year);
    ParseNatToString(d.year);
    assert s[0..2] == Pad2(d.day);
    assert s[3..5] == Pad2(d.month);
    assert s[6..10] == NatToString(d.year);
    assert s[11..13] == Pad2(d.hour);
    assert s[14..16] == Pad2(d.minute);
  }

  /** The separator rule of the report: 48 hyphens. */
  const Rule: string := "------------------------" + "------------------------"

  // The fixed lines of the report, each written in pieces short enough for
  // the verifier to see that none holds a newline.
  const Title: string := "Foodgram, " + "«Продуктовый помощник»"
  const Purpose: string := "Список ингредиентов " + "для приготовления рецептов."
  const PreparedFor: string := "Подготовлен для: "
  const DateLabel: string := "Дата: "
  const PurchasesLabel: string := "Список покупок:"
  const RecipesLabel: string := "Список подготовлен " + "для рецептов:"
  const Wish: string := "Приятных покупок!"
  const Farewell: string := "Ждем вас снова " + "на Foodgram."

  lemma FixedLinesOneLineEach()
    ensures NoNewline(Rule) && NoNewline(Title) && NoNewline(Purpose) && NoNewline(PreparedFor)
    ensures NoNewline(DateLabel) && NoNewline(PurchasesLabel) && NoNewline(RecipesLabel)
    ensures NoNewline(Wish) && NoNewline(Farewell)
  {
    assert NoNewline(Rule) && NoNewline(Title) && NoNewline(Purpose) by { HeaderLabelsOneLineEach(); }
    assert NoNewline(PreparedFor) && NoNewline(DateLabel) && NoNewline(PurchasesLabel) by { ShortLabelsOneLineEach(); }
    assert NoNewline(RecipesLabel) && NoNewline(Wish) && NoNewline(Farewell) by { ClosingLabelsOneLineEach(); }
  }

  lemma HeaderLabelsOneLineEach()
    ensures NoNewline(Rule) && NoNewline(Title) && NoNewline(Purpose)
  {
  }

  lemma ShortLabelsOneLineEach()
    ensures NoNewline(PreparedFor) && NoNewline(DateLabel) && NoNewline(PurchasesLabel)
  {
  }

  lemma ClosingLabelsOneLineEach()
    ensures NoNewline(RecipesLabel) && NoNewline(Wish) && NoNewline(Farewell)
  {
  }

  /** The lines before the ingredients: title, greeting, name, date and
      the first rule. */
  function HeaderLines(fullName: string, now: DateTime): seq<string>
    requires now.Valid()
  {
    [Title, Purpose, "", PreparedFor + fullName, DateLabel + FormatDate(now), "", PurchasesLabel, Rule]
  }

  function Header(fullName: string, now: DateTime): string
    requires now.Valid()
  {
    Section(HeaderLines(fullName, now))
  }

  /** The lines between the ingredients and the recipes. */
  const MiddleLines: seq<string> := [Rule, "", RecipesLabel, Rule]

  const Middle: string := Section(MiddleLines)

  /** The footer's lines up to its last one, which has no newline after it. */
  const FooterLines: seq<string> := [Rule, "", Wish]

  const Footer: string := Section(FooterLines) + Farewell

  /** An ingredient line without its newline: name, total, unit. */
  function IngredientText(l: Line): string
  {
    l.key.name + ": " + IntToString(l.total) + " " + l.key.unit + "."
  }

  function IngredientTexts(lines: seq<Line>): (r: seq<string>)
    ensures |r| == |lines|
    ensures forall i :: 0 <= i < |lines| ==> r[i] == IngredientText(lines[i])
  {
    seq(|lines|, i requires 0 <= i < |lines| => IngredientText(lines[i]))
  }

  /** Each text followed by a newline, all concatenated. */
  function Section(texts: seq<string>): string
  {
    if texts == [] then "" else texts[0] + "\n" + Section(texts[1..])
  }

  predicate NoNewline(s: string)
  {
    '\n' !in s
  }

  /** Newline-terminated texts split back into those texts, followed by the
      split of whatever comes after them. */
  lemma {:induction false} SplitSection(texts: seq<string>, rest: string)
    requires forall i :: 0 <= i < |texts| ==> NoNewline(texts[i])
    ensures Split(Section(texts) + rest, "\n") == texts + Split(rest, "\n")
  {
    if texts == [] {
      assert Section(texts) + rest == rest;
    } else {
      var tail, after := texts[1..], Split(rest, "\n");
      calc {
        Split(Section(texts) + rest, "\n");
        == { SplitSectionStep(texts, rest); }
        [texts[0]] + Split(Section(tail) + rest, "\n");
        == { TailOneLineEach(texts); SplitSection(tail, rest); }
        [texts[0]] + (tail + after);
        == { assert texts == [texts[0]] + tail; }
        texts + after;
      }
    }
  }

  lemma TailOneLineEach(texts: seq<string>)
    requires texts != [] && forall i :: 0 <= i < |texts| ==> NoNewline(texts[i])
    ensures forall i :: 0 <= i < |texts| - 1 ==> NoNewline(texts[1..][i])
  {
    forall i | 0 <= i < |texts| - 1 ensures NoNewline(texts[1..][i]) {
      assert texts[1..][i] == texts[i + 1];
    }
  }

  lemma SplitSectionStep(texts: seq<string>, rest: string)
    requires texts != [] && NoNewline(texts[0])
    ensures Split(Section(texts) + rest, "\n") == [texts[0]] + Split(Section(texts[1..]) + rest, "\n")
  {
    var head, more := texts[0], Section(texts[1..]) + rest;
    assert Section(texts) + rest == head + ['\n'] + more;
    SplitAfterFirstPiece(head, '\n', more);
  }

  /** A section splits back on newlines into its texts, followed by the
      empty text after the last newline. */
  lemma SectionSplits(texts: seq<string>)
    requires forall i :: 0 <= i < |texts| ==> NoNewline(texts[i])
    ensures Split(Section(texts), "\n") == texts + [""]
  {
    SplitSection(texts, "");
    assert Section(texts) + "" == Section(texts);
    NotContainsByFirstChar("", "\n");
  }

  /** Ingredient texts hold no newline when names and units hold none. */
  lemma IngredientTextsOneLineEach(lines: seq<Line>)
    requires forall i :: 0 <= i < |lines| ==> NoNewline(lines[i].key.name) && NoNewline(lines[i].key.unit)
    ensures Split(Section(IngredientTexts(lines)), "\n") == IngredientTexts(lines) + [""]
  {
    IngredientTextsNoNewline(lines);
    SectionSplits(IngredientTexts(lines));
  }

  lemma IngredientTextsNoNewline(lines: seq<Line>)
    requires forall i :: 0 <= i < |lines| ==> NoNewline(lines[i].key.name) && NoNewline(lines[i].key.unit)
    ensures forall i :: 0 <= i < |lines| ==> NoNewline(IngredientTexts(lines)[i])
  {
    var texts := IngredientTexts(lines);
    forall i | 0 <= i < |texts| ensures NoNewline(texts[i]) {
      var l := lines[i];
      var n := IntToString(l.total);
      assert NoNewline(n) by {
        forall j | 0 <= j < |n| ensures n[j] != '\n' {
          assert n[j] == '-' || IsDigit(n[j]);
        }
      }
      assert texts[i] == l.key.name + ": " + n + " " + l.key.unit + ".";
    }
  }

  /** `get_shopping_list`: the header, one line per ingredient group, the
      middle rule, one line per cart recipe newest first, and the footer. */
  function ShoppingList(t: Tables, user: UserId, fullName: string, now: DateTime): string
    requires t.Ok() && now.Valid()
  {
    Header(fullName, now)
    + Section(IngredientTexts(ShoppingLines(t, user)))
    + Middle
    + Section(RecipeNames(t.recipes, NewestFirst(t.cart, user)))
    + Footer
  }

  /** Read line by line, the list is the header, one line per ingredient
      group, the middle, one line per cart row, and the footer, provided no
      name in it holds a newline of its own. */
  lemma ShoppingListLines(t: Tables, user: UserId, fullName: string, now: DateTime)
    requires t.Ok() && now.Valid() && NoNewline(fullName)
    requires forall id :: id in t.recipes ==> NoNewline(t.recipes[id].name)
    requires forall id :: id in t.ingredients ==> NoNewline(t.ingredients[id].name) && NoNewline(t.ingredients[id].unit)
    ensures Split(ShoppingList(t, user, fullName, now), "\n") ==
      HeaderLines(fullName, now)
      + IngredientTexts(ShoppingLines(t, user))
      + MiddleLines
      + RecipeNames(t.recipes, NewestFirst(t.cart, user))
      + FooterLines
      + [Farewell]
  {
    var lines := ShoppingLines(t, user);
    var names := RecipeNames(t.recipes, NewestFirst(t.cart, user));
    HeaderOneLineEach(fullName, now);
    LineKeysOneLineEach(t, user);
    IngredientTextsNoNewline(lines);
    RecipeNamesOneLineEach(t.recipes, NewestFirst(t.cart, user));
    ReportLines(HeaderLines(fullName, now), IngredientTexts(lines), names);
  }

  lemma LineKeysOneLineEach(t: Tables, user: UserId)
    requires t.Ok()
    requires forall id :: id in t.ingredients ==> NoNewline(t.ingredients[id].name) && NoNewline(t.ingredients[id].unit)
    ensures var lines := ShoppingLines(t, user);
      forall i :: 0 <= i < |lines| ==> NoNewline(lines[i].key.name) && NoNewline(lines[i].key.unit)
  {
    var lines := ShoppingLines(t, user);
    forall i | 0 <= i < |lines| ensures NoNewline(lines[i].key.name) && NoNewline(lines[i].key.unit) {
      LineKeyIsIngredient(t, user, i);
    }
  }

  lemma RecipeNamesOneLineEach(recipes: map<RecipeId, Recipe>, entries: seq<CartEntry>)
    requires forall id :: id in recipes ==> NoNewline(recipes[id].name)
    ensures var names := RecipeNames(recipes, entries);
      forall i :: 0 <= i < |names| ==> NoNewline(names[i])
  {
  }

  /** The report's frame around any one-line header, ingredient and recipe
      texts splits back into its lines. */
  lemma ReportLines(header: seq<string>, ingredients: seq<string>, names: seq<string>)
    requires forall i :: 0 <= i < |header| ==> NoNewline(header[i])
    requires forall i :: 0 <= i < |ingredients| ==> NoNewline(ingredients[i])
    requires forall i :: 0 <= i < |names| ==> NoNewline(names[i])
    ensures Split(Section(header) + Section(ingredients) + Middle + Section(names) + Footer, "\n") ==
      header + ingredients + MiddleLines + names + FooterLines + [Farewell]
  {
    var recipes := Section(names) + Footer;
    var middle := Middle + recipes;
    var body := Section(ingredients) + middle;
    calc {
      Split(Section(header) + Section(ingredients) + Middle + Section(names) + Footer, "\n");
      == { ConcatFive(Section(header), Section(ingredients), Middle, Section(names), Footer); }
      Split(Section(header) + body, "\n");
      == { SplitSection(header, body); SplitSection(ingredients, middle); }
      header + (ingredients + Split(middle, "\n"));
      == { ClosingLines(names); }
      header + (ingredients + (MiddleLines + names + FooterLines + [Farewell]));
      == { ConcatSix(header, ingredients, MiddleLines, names, FooterLines, [Farewell]); }
      header + ingredients + MiddleLines + names + FooterLines + [Farewell];
    }
  }

  /** From the middle block on, the report splits into the middle lines,
      the recipe texts and the footer lines. */
  lemma ClosingLines(names: seq<string>)
    requires forall i :: 0 <= i < |names| ==> NoNewline(names[i])
    ensures Split(Middle + (Section(names) + Footer), "\n") == MiddleLines + names + FooterLines + [Farewell]
  {
    FrameOneLineEach();
    calc {
      Split(Middle + (Section(names) + Footer), "\n");
      == { SplitSection(MiddleLines, Section(names) + Footer); }
      MiddleLines + Split(Section(names) + Footer, "\n");
      == { SplitSection(names, Footer); }
      MiddleLines + (names + Split(Footer, "\n"));
      == { SplitSection(FooterLines, Farewell); SplitWithout(Farewell, '\n'); }
      MiddleLines + (names + (FooterLines + [Farewell]));
      == { ConcatFour(MiddleLines, names, FooterLines, [Farewell]); }
      MiddleLines + names + FooterLines + [Farewell];
    }
  }

  lemma ConcatFour<T>(a: seq<T>, b: seq<T>, c: seq<T>, d: seq<T>)
    ensures a + (b + (c + d)) == a + b + c + d
  {
  }

  lemma FrameOneLineEach()
    ensures forall i :: 0 <= i < |MiddleLines| ==> NoNewline(MiddleLines[i])
    ensures forall i :: 0 <= i < |FooterLines| ==> NoNewline(FooterLines[i])
    ensures NoNewline(Farewell)
  {
    FixedLinesOneLineEach();
  }

  lemma ConcatFive<T>(a: seq<T>, b: seq<T>, c: seq<T>, d: seq<T>, e: seq<T>)
    ensures a + b + c + d + e == a + (b + (c + (d + e)))
  {
  }

  lemma ConcatSix<T>(a: seq<T>, b: seq<T>, c: seq<T>, d: seq<T>, e: seq<T>, f: seq<T>)
    ensures a + (b + (c + (d + (e + f)))) == a + b + c + d + e + f
  {
  }

  lemma HeaderOneLineEach(fullName: string, now: DateTime)
    requires now.Valid() && NoNewline(fullName)
    ensures forall i :: 0 <= i < |HeaderLines(fullName, now)| ==> NoNewline(HeaderLines(fullName, now)[i])
  {
    var date := FormatDate(now);
    assert NoNewline(date) by {
      var y := NatToString(now.year);
      assert date == Pad2(now.day) + "/" + Pad2(now.month) + "/" + y + " " + Pad2(now.hour) + ":" + Pad2(now.minute);
      assert forall k :: 0 <= k < |y| ==> IsDigit(y[k]);
    }
    FixedLinesOneLineEach();
  }

  /** Every group of the list is an ingredient of the table, or the empty
      group of rows naming no ingredient. */
  lemma LineKeyIsIngredient(t: Tables, user: UserId, i: nat)
    requires t.Ok()
    requires i < |ShoppingLines(t, user)|
    ensures var k := ShoppingLines(t, user)[i].key;
      k == Ingredient("", "") || exists id :: id in t.ingredients && t.ingredients[id] == k
  {
    var lines := ShoppingLines(t, user);
    assert Listed(lines, lines[i].key);
  }

  /** An empty cart gives the fixed frame and nothing between. */
  lemma EmptyCartList(t: Tables, user: UserId, fullName: string, now: DateTime)
    requires t.Ok() && now.Valid()
    requires forall e :: e in t.cart ==> e.user != user
    ensures ShoppingList(t, user, fullName, now) == Header(fullName, now) + Middle + Footer
  {
    Collections.FilterNone(t.cart, OfUser(user));
    assert NewestFirst(t.cart, user) == [];
  }

  /** The recipe section lists exactly the user's cart rows, newest first:
      reading it back line by line gives their recipe names. */
  lemma RecipeSectionReadsBack(t: Tables, user: UserId)
    requires t.Ok()
    requires forall id :: id in t.recipes ==> NoNewline(t.recipes[id].name)
    ensures var entries := NewestFirst(t.cart, user);
      Split(Section(RecipeNames(t.recipes, entries)), "\n") == RecipeNames(t.recipes, entries) + [""]
  {
    RecipeNamesOneLineEach(t.recipes, NewestFirst(t.cart, user));
    SectionSplits(RecipeNames(t.recipes, NewestFirst(t.cart, user)));
  }
}
