/** The schema of the recipe backend as one immutable database value.

    Users, tags, ingredients and recipes are tables keyed by id. The
    IngredientRecipe table is a pool shared by all recipes: a row is an
    (ingredient, amount) pair, and a recipe's `ingredients` many-to-many field
    is a set of pool row ids. Favorite, ShoppingCart and Subscribe are pair
    tables (see `Tables`). `Valid` gathers the constraints the models declare
    (unique fields, foreign keys, unique pairs) and the ones the code keeps.
 */
module Models {
  import opened Replies
  import opened Tables
  import opened Seqs

  type UserId = nat
  type TagId = nat
  type IngredientId = nat
  type RowId = nat
  type RecipeId = nat

  datatype User = User(username: string, email: string, firstName: string, lastName: string)

  datatype Tag = Tag(name: string, color: string, slug: string)

  datatype Ingredient = Ingredient(name: string, measurementUnit: string)

  /** An IngredientRecipe row: an ingredient with an amount (a
      PositiveIntegerField, so never negative). */
  datatype PoolRow = PoolRow(ingredient: IngredientId, amount: nat)

  /** The largest value a PositiveIntegerField holds on PostgreSQL, where
      Django declares it as a signed 32-bit `integer` column. */
  const AmountMax: nat := 0x7FFF_FFFF

  /** A recipe row and its two many-to-many link sets. `pubDate` is set once
      on creation (auto_now_add). */
  datatype Recipe = Recipe(
    author: UserId,
    name: string,
    image: string,
    text: string,
    cookingTime: int,
    pubDate: nat,
    ingredients: set<RowId>,
    tags: set<TagId>)

  datatype Db = Db(
    users: map<UserId, User>,
    nextUser: nat,
    tags: map<TagId, Tag>,
    ingredients: map<IngredientId, Ingredient>,
    pool: map<RowId, PoolRow>,
    nextRow: nat,
    recipes: map<RecipeId, Recipe>,
    nextRecipe: nat,
    favorites: Table,
    carts: Table,
    subscriptions: Table)

  /** What an operation answers and the database it leaves behind. */
  datatype Step = Step(reply: Reply, db: Db)

  /** The user a request is made by. */
  datatype Principal = Anonymous | Member(id: UserId)

  /** A serializer's `context.get('request')`. */
  datatype RequestContext = NoRequest | Request(user: Principal)

  /** The HTTP method of a toggle action. The actions treat every method
      other than POST as a removal, and they only admit POST and DELETE. */
  datatype Method = Post | Delete

  // -------------------------------------------------------- constraints

  /** `username` and `email` are both declared unique; ids come from the
      counter. */
  predicate UsersValid(db: Db) {
    && (forall u | u in db.users :: u < db.nextUser)
    && (forall u, v | u in db.users && v in db.users && u != v ::
          db.users[u].username != db.users[v].username)
    && (forall u, v | u in db.users && v in db.users && u != v ::
          db.users[u].email != db.users[v].email)
  }

  /** `Tag.slug` is declared unique. */
  predicate TagsValid(db: Db) {
    forall a, b | a in db.tags && b in db.tags && a != b :: db.tags[a].slug != db.tags[b].slug
  }

  /** No two pool rows carry the same (ingredient, amount). No constraint
      declares this. It is an assumption of the model: get_or_create keeps
      it, and it is the only writer modelled, but the admin site can store
      a second row with the same pair. */
  predicate PoolUnique(pool: map<RowId, PoolRow>) {
    forall a, b | a in pool && b in pool && a != b :: pool[a] != pool[b]
  }

  /** Pool rows reference existing ingredients (ON DELETE CASCADE). */
  predicate PoolValid(db: Db) {
    && (forall id | id in db.pool :: id < db.nextRow && db.pool[id].ingredient in db.ingredients)
    && PoolUnique(db.pool)
    && PoolBounded(db.pool)
  }

  /** Every stored amount fits the column. */
  predicate PoolBounded(pool: map<RowId, PoolRow>) {
    forall id | id in pool :: pool[id].amount <= AmountMax
  }

  /** A recipe's author exists (ON DELETE CASCADE) and its ingredient links
      point at pool rows. Tag links are not constrained: the field is
      declared with db_constraint=False. */
  predicate RecipesValid(db: Db) {
    forall r | r in db.recipes ::
      && r < db.nextRecipe
      && db.recipes[r].author in db.users
      && db.recipes[r].ingredients <= db.pool.Keys
  }

  /** Both foreign keys of a pair table point at existing rows. */
  predicate References(t: Table, users: set<nat>, targets: set<nat>) {
    forall id | id in t.rows :: t.rows[id].user in users && t.rows[id].target in targets
  }

  predicate Valid(db: Db) {
    && UsersValid(db)
    && TagsValid(db)
    && PoolValid(db)
    && RecipesValid(db)
    && WellFormed(db.favorites) && References(db.favorites, db.users.Keys, db.recipes.Keys)
    && WellFormed(db.carts) && References(db.carts, db.users.Keys, db.recipes.Keys)
    && WellFormed(db.subscriptions) && References(db.subscriptions, db.users.Keys, db.users.Keys)
  }

  // ---------------------------------------------------------- relations

  /** The two user-recipe pair tables the recipe views toggle. */
  datatype Relation = Favorites | Carts

  function TableOf(db: Db, rel: Relation): Table {
    match rel
    case Favorites => db.favorites
    case Carts => db.carts
  }

  /** Replaces one pair table; every other table is left as it was. */
  function WithTable(db: Db, rel: Relation, t: Table): (db': Db)
    ensures TableOf(db', rel) == t
    ensures db'.(favorites := db.favorites, carts := db.carts) == db
  {
    match rel
    case Favorites => db.(favorites := t)
    case Carts => db.(carts := t)
  }

  // ------------------------------------------------------------ cascades

  /** Deleting a recipe removes its Favorite and ShoppingCart rows; the pool
      rows it linked to are shared and stay. */
  function DeleteRecipe(db: Db, r: RecipeId): (db': Db)
    ensures db'.recipes.Keys == db.recipes.Keys - {r}
    ensures forall x | x in db'.recipes :: db'.recipes[x] == db.recipes[x]
    ensures forall l :: Has(db'.favorites, l) <==> Has(db.favorites, l) && l.target != r
    ensures forall l :: Has(db'.carts, l) <==> Has(db.carts, l) && l.target != r
    ensures db'.(recipes := db.recipes, favorites := db.favorites, carts := db.carts) == db
  {
    db.(recipes := db.recipes - {r},
        favorites := Retain(db.favorites, (l: Link) => l.target != r),
        carts := Retain(db.carts, (l: Link) => l.target != r))
  }

  /** Deleting a user removes the recipes they wrote, every Favorite and
      ShoppingCart row of theirs or on those recipes, and every Subscribe
      row in which they follow or are followed. */
  function DeleteUser(db: Db, u: UserId): (db': Db)
    ensures db'.users.Keys == db.users.Keys - {u}
    ensures forall r :: r in db'.recipes <==> r in db.recipes && db.recipes[r].author != u
    ensures forall r | r in db'.recipes :: db'.recipes[r] == db.recipes[r]
    ensures forall l :: Has(db'.favorites, l) <==> Has(db.favorites, l) && l.user != u && l.target in db'.recipes
    ensures forall l :: Has(db'.carts, l) <==> Has(db.carts, l) && l.user != u && l.target in db'.recipes
    ensures forall l :: Has(db'.subscriptions, l) <==> Has(db.subscriptions, l) && l.user != u && l.target != u
    ensures forall x | x in db'.users :: db'.users[x] == db.users[x]
    ensures db'.(users := db.users, recipes := db.recipes, favorites := db.favorites, carts := db.carts,
                 subscriptions := db.subscriptions) == db
  {
    var kept := map r | r in db.recipes && db.recipes[r].author != u :: db.recipes[r];
    db.(users := db.users - {u},
        recipes := kept,
        favorites := Retain(db.favorites, (l: Link) => l.user != u && l.target in kept),
        carts := Retain(db.carts, (l: Link) => l.user != u && l.target in kept),
        subscriptions := Retain(db.subscriptions, (l: Link) => l.user != u && l.target != u))
  }

  /** Deleting an ingredient removes the pool rows that use it and, with
      them, every recipe's links to those rows. */
  function DeleteIngredient(db: Db, i: IngredientId): (db': Db)
    ensures db'.ingredients.Keys == db.ingredients.Keys - {i}
    ensures forall id :: id in db'.pool <==> id in db.pool && db.pool[id].ingredient != i
    ensures forall id | id in db'.pool :: db'.pool[id] == db.pool[id]
    ensures db'.recipes.Keys == db.recipes.Keys
    ensures forall r | r in db'.recipes ::
              db'.recipes[r].ingredients == db.recipes[r].ingredients * db'.pool.Keys
              && db'.recipes[r].(ingredients := {}) == db.recipes[r].(ingredients := {})
    ensures forall x | x in db'.ingredients :: db'.ingredients[x] == db.ingredients[x]
    ensures db'.(ingredients := db.ingredients, pool := db.pool, recipes := db.recipes) == db
  {
    var pool := map id | id in db.pool && db.pool[id].ingredient != i :: db.pool[id];
    var recipes := map r | r in db.recipes ::
      db.recipes[r].(ingredients := db.recipes[r].ingredients * pool.Keys);
    db.(ingredients := db.ingredients - {i}, pool := pool, recipes := recipes)
  }

  /** What a cascade keeps of a pair table still points at existing rows. */
  lemma RetainReferences(t: Table, keep: Link -> bool, users: set<nat>, targets: set<nat>,
                         users': set<nat>, targets': set<nat>)
    requires References(t, users, targets)
    requires forall l | keep(l) :: (l.user in users ==> l.user in users') && (l.target in targets ==> l.target in targets')
    ensures References(Retain(t, keep), users', targets')
  {
    var r := Retain(t, keep);
    forall id | id in r.rows
      ensures r.rows[id].user in users' && r.rows[id].target in targets'
    {
      assert r.rows[id] == t.rows[id] && keep(r.rows[id]);
    }
  }

  lemma DeleteRecipeValid(db: Db, r: RecipeId)
    requires Valid(db)
    ensures Valid(DeleteRecipe(db, r))
  {
    var db' := DeleteRecipe(db, r);
    assert RecipesValid(db');
    RetainReferences(db.favorites, (l: Link) => l.target != r, db.users.Keys, db.recipes.Keys,
                     db'.users.Keys, db'.recipes.Keys);
    RetainReferences(db.carts, (l: Link) => l.target != r, db.users.Keys, db.recipes.Keys,
                     db'.users.Keys, db'.recipes.Keys);
  }

  lemma DeleteUserValid(db: Db, u: UserId)
    requires Valid(db)
    ensures Valid(DeleteUser(db, u))
  {
    var db' := DeleteUser(db, u);
    assert UsersValid(db');
    assert RecipesValid(db') by {
      forall r | r in db'.recipes
        ensures db'.recipes[r].author in db'.users
      {
        assert db'.recipes[r] == db.recipes[r];
      }
    }
    var kept := db'.recipes;
    RetainReferences(db.favorites, (l: Link) => l.user != u && l.target in kept,
                     db.users.Keys, db.recipes.Keys, db'.users.Keys, db'.recipes.Keys);
    RetainReferences(db.carts, (l: Link) => l.user != u && l.target in kept,
                     db.users.Keys, db.recipes.Keys, db'.users.Keys, db'.recipes.Keys);
    RetainReferences(db.subscriptions, (l: Link) => l.user != u && l.target != u,
                     db.users.Keys, db.users.Keys, db'.users.Keys, db'.users.Keys);
  }

  lemma DeleteIngredientValid(db: Db, i: IngredientId)
    requires Valid(db)
    ensures Valid(DeleteIngredient(db, i))
  {
    var db' := DeleteIngredient(db, i);
    assert PoolValid(db');
    assert RecipesValid(db');
  }

  // ------------------------------------------------------------ ordering

  /** `a` was published no earlier than `b`. */
  function NotOlder(recipes: map<RecipeId, Recipe>): (RecipeId, RecipeId) -> bool {
    (a, b) => a in recipes && b in recipes && recipes[a].pubDate >= recipes[b].pubDate
  }

  /** Meta.ordering = ('-pub_date',): newest first. */
  ghost predicate NewestFirst(recipes: map<RecipeId, Recipe>, s: seq<RecipeId>) {
    Chained(s, NotOlder(recipes))
  }

  function InsertByDate(recipes: map<RecipeId, Recipe>, x: RecipeId, s: seq<RecipeId>): (r: seq<RecipeId>)
    requires x in recipes && forall y | y in s :: y in recipes
    requires NewestFirst(recipes, s)
    ensures multiset(r) == multiset(s) + multiset{x}
    ensures forall y | y in r :: y in recipes
    ensures NewestFirst(recipes, r)
    decreases |s|
  {
    if |s| == 0 || recipes[x].pubDate >= recipes[s[0]].pubDate then
      InsertByDateFront(recipes, x, s);
      [x] + s
    else
      var rest := s[1..];
      ChainedTail(s, NotOlder(recipes));
      var tail := InsertByDate(recipes, x, rest);
      assert s == [s[0]] + rest;
      InsertByDateHead(recipes, s, x, tail);
      [s[0]] + tail
  }

  /** A recipe no older than the head of a newest-first list can go in
      front of it. */
  lemma InsertByDateFront(recipes: map<RecipeId, Recipe>, x: RecipeId, s: seq<RecipeId>)
    requires x in recipes && forall y | y in s :: y in recipes
    requires NewestFirst(recipes, s)
    requires |s| == 0 || recipes[x].pubDate >= recipes[s[0]].pubDate
    ensures NewestFirst(recipes, [x] + s)
  {
    var r := [x] + s;
    forall i, j | 0 <= i < j < |r|
      ensures NotOlder(recipes)(r[i], r[j])
    {
      assert r[j] == s[j - 1] && r[j] in s;
      if i == 0 {
        if j > 1 {
          assert NotOlder(recipes)(s[0], s[j - 1]);
        }
      } else {
        assert r[i] == s[i - 1];
      }
    }
  }

  /** The head of a newest-first list stays in front of anything inserted
      later with an older date. */
  lemma InsertByDateHead(recipes: map<RecipeId, Recipe>, s: seq<RecipeId>, x: RecipeId, tail: seq<RecipeId>)
    requires |s| > 0 && x in recipes && forall y | y in s :: y in recipes
    requires NewestFirst(recipes, s) && recipes[x].pubDate < recipes[s[0]].pubDate
    requires NewestFirst(recipes, tail)
    requires multiset(tail) == multiset(s[1..]) + multiset{x}
    ensures NewestFirst(recipes, [s[0]] + tail)
  {
    var r := [s[0]] + tail;
    forall i, j | 0 <= i < j < |r|
      ensures NotOlder(recipes)(r[i], r[j])
    {
      if i == 0 {
        var y := r[j];
        assert y == tail[j - 1];
        assert y in multiset(tail);
        if y != x {
          assert y in multiset(s[1..]);
          var k :| 0 <= k < |s[1..]| && s[1..][k] == y;
          assert s[k + 1] == y;
        }
      } else {
        assert r[i] == tail[i - 1] && r[j] == tail[j - 1];
      }
    }
  }

  function SortByDate(recipes: map<RecipeId, Recipe>, s: seq<RecipeId>): (r: seq<RecipeId>)
    requires forall y | y in s :: y in recipes
    ensures multiset(r) == multiset(s)
    ensures forall y | y in r :: y in recipes
    ensures NewestFirst(recipes, r)
    decreases |s|
  {
    if |s| == 0 then []
    else
      assert s == [s[0]] + s[1..];
      InsertByDate(recipes, s[0], SortByDate(recipes, s[1..]))
  }

  /** The recipe ids below the counter, in increasing order. */
  function RecipeIds(db: Db): (ids: seq<RecipeId>)
    ensures forall x :: x in ids <==> x in db.recipes && x < db.nextRecipe
    ensures Chained(ids, Ascending())
  {
    KeysBelow(db.recipes, db.nextRecipe, _ => true)
  }

  /** `Recipe.objects.all()`: every recipe, newest first. */
  function Listing(db: Db): (r: seq<RecipeId>)
    ensures forall x :: x in r <==> x in db.recipes && x < db.nextRecipe
    ensures NewestFirst(db.recipes, r)
  {
    var ids := RecipeIds(db);
    var sorted := SortByDate(db.recipes, ids);
    assert forall x :: x in sorted <==> x in multiset(ids);
    sorted
  }

  /** The listing shows no recipe twice. */
  lemma ListingDistinct(db: Db)
    ensures Distinct(Listing(db))
  {
    var ids := RecipeIds(db);
    assert Distinct(ids);
    PermutationDistinct(ids, Listing(db));
  }

  /** The author's recipes, `user.recipe.all()`: newest first. */
  function Authored(db: Db, a: UserId): (r: seq<RecipeId>)
    ensures forall x :: x in r <==> x in db.recipes && x < db.nextRecipe && db.recipes[x].author == a
    ensures NewestFirst(db.recipes, r)
  {
    var all := Listing(db);
    FilterChained(all, ByAuthor(db, a), NotOlder(db.recipes));
    Filter(all, ByAuthor(db, a))
  }

  function ByAuthor(db: Db, a: UserId): RecipeId -> bool {
    x => x in db.recipes && db.recipes[x].author == a
  }

  /** The recipes an author wrote, as a set: what `count()` counts. */
  function AuthoredSet(db: Db, a: UserId): set<RecipeId> {
    set x | x in db.recipes && db.recipes[x].author == a
  }

  /** Listing an author's recipes shows each of them exactly once. */
  lemma AuthoredCount(db: Db, a: UserId)
    requires RecipesValid(db)
    ensures |Authored(db, a)| == |AuthoredSet(db, a)|
  {
    var ids := RecipeIds(db);
    var f := ByAuthor(db, a);
    var byId := Filter(ids, f);
    FilterDistinct(ids, f);
    DistinctCardinality(byId);
    AuthoredSetOfIds(db, a);
    AuthoredSameSize(db, a);
  }

  lemma FilterDistinct(ids: seq<nat>, f: nat -> bool)
    requires Chained(ids, Ascending())
    ensures Distinct(Filter(ids, f))
  {
    FilterChained(ids, f, Ascending());
  }

  lemma AuthoredSameSize(db: Db, a: UserId)
    ensures |Authored(db, a)| == |Filter(RecipeIds(db), ByAuthor(db, a))|
  {
    var ids := RecipeIds(db);
    var f := ByAuthor(db, a);
    assert Authored(db, a) == Filter(Listing(db), f);
    FilterPermutation(Listing(db), ids, f);
    assert |multiset(Filter(Listing(db), f))| == |multiset(Filter(ids, f))|;
  }

  lemma AuthoredSetOfIds(db: Db, a: UserId)
    requires RecipesValid(db)
    ensures Elements(Filter(RecipeIds(db), ByAuthor(db, a))) == AuthoredSet(db, a)
  {
  }
}
