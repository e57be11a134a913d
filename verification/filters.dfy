/** The query filters of the recipe API: the ingredient name search and the
    favorite / shopping-cart flags of the recipe list.

    A queryset is a sequence in the order the database returns it.
    `icontains` and `istartswith` compare after lowercasing both sides; the
    lowercasing is the ASCII one of `Text.Lower`.
 */
module Filters {
  import opened Replies
  import opened Text
  import opened Seqs
  import opened Tables
  import opened Models
  import RecipeSerializers

  // ------------------------------------------------------ ingredient name

  /** `name__istartswith=value`. */
  predicate IStartsWith(name: string, value: string) {
    StartsWith(Lower(name), Lower(value))
  }

  /** `name__icontains=value`. */
  predicate IContains(name: string, value: string) {
    Contains(Lower(name), Lower(value))
  }

  /** The `WHERE` clause of the search: starts with the value or contains it. */
  function Where(value: string): Ingredient -> bool {
    (x: Ingredient) => IStartsWith(x.name, value) || IContains(x.name, value)
  }

  /** The rows the `startswith` annotation marks true. */
  function Prefixed(value: string): Ingredient -> bool {
    (x: Ingredient) => IStartsWith(x.name, value)
  }

  /** The rows of the `WHERE` clause the annotation marks false. */
  function Infixed(value: string): Ingredient -> bool {
    (x: Ingredient) => IContains(x.name, value) && !IStartsWith(x.name, value)
  }

  /** A prefix is an occurrence, so the `istartswith` half of the `WHERE`
      clause adds nothing to the `icontains` half. */
  lemma PrefixIsOccurrence(value: string)
    ensures forall x: Ingredient :: Where(value)(x) == IContains(x.name, value)
  {
    forall x: Ingredient | IStartsWith(x.name, value)
      ensures IContains(x.name, value)
    {
      StartsWithContains(Lower(x.name), Lower(value));
    }
  }

  /** `IngredientFilter.filter_name`: the matching rows ordered by
      `-startswith`, the rows whose name starts with the value first. Within
      each group the rows keep the order of `qs`. */
  function FilterName(qs: seq<Ingredient>, value: string): (r: seq<Ingredient>)
    ensures forall x :: x in r <==> x in qs && IContains(x.name, value)
  {
    PrefixIsOccurrence(value);
    Filter(qs, Prefixed(value)) + Filter(qs, Infixed(value))
  }

  /** The output is a run of prefix matches, as many as `qs` holds,
      followed by the rows that match elsewhere: a prefix match never comes
      after another match. */
  lemma FilterNameOrder(qs: seq<Ingredient>, value: string)
    ensures var r := FilterName(qs, value);
            && (forall k | 0 <= k < |r| ::
                  IStartsWith(r[k].name, value) <==> k < |Filter(qs, Prefixed(value))|)
            && (forall i, j | 0 <= i < j < |r| && IStartsWith(r[j].name, value) :: IStartsWith(r[i].name, value))
  {
    var front := Filter(qs, Prefixed(value));
    var back := Filter(qs, Infixed(value));
    var r := front + back;
    assert FilterName(qs, value) == r;
    forall k | 0 <= k < |r|
      ensures IStartsWith(r[k].name, value) <==> k < |front|
    {
      if k < |front| {
        assert r[k] == front[k] && front[k] in front;
      } else {
        assert r[k] == back[k - |front|] && back[k - |front|] in back;
      }
    }
  }

  /** Nothing is lost or repeated: the output holds each row of `qs` that
      the `WHERE` clause admits, as often as `qs` holds it. */
  lemma FilterNamePermutation(qs: seq<Ingredient>, value: string)
    ensures multiset(FilterName(qs, value)) == multiset(Filter(qs, Where(value)))
  {
    var front := Filter(qs, Prefixed(value));
    var back := Filter(qs, Infixed(value));
    assert FilterName(qs, value) == front + back;
    PrefixIsOccurrence(value);
    forall x
      ensures multiset(front + back)[x] == multiset(Filter(qs, Where(value)))[x]
    {
      FilterCount(qs, Prefixed(value), x);
      FilterCount(qs, Infixed(value), x);
      FilterCount(qs, Where(value), x);
    }
  }

  // --------------------------------------------------------- recipe flags

  /** `RecipeFilter.filter_is_favorited` and `filter_is_in_shopping_cart` as
      written: `false` passes the queryset through; `true` evaluates
      `request.user`, and `request` is bound nowhere in the module. */
  function FilterInRelationAsWritten(qs: seq<RecipeId>, value: bool): (r: Result<seq<RecipeId>>)
    ensures r.Failure? <==> value
    ensures r.Failure? ==> r.reply == Crash(UnboundName)
    ensures !value ==> r == Success(qs)
  {
    if value then Failure(Crash(UnboundName)) else Success(qs)
  }

  /** The flags given the requesting user: `true` keeps the recipes the user
      has a row for in the relation, in the queryset's order. */
  function FilterInRelation(db: Db, rel: Relation, user: UserId, qs: seq<RecipeId>, value: bool): (r: seq<RecipeId>)
    ensures !value ==> r == qs
    ensures value ==> forall x :: x in r <==> x in qs && Has(TableOf(db, rel), Link(user, x))
    ensures |r| <= |qs|
  {
    if value then Filter(qs, (x: RecipeId) => Has(TableOf(db, rel), Link(user, x))) else qs
  }

  /** The flag and the serializer field agree: with `true` the list holds
      exactly the recipes of `qs` whose flag the user sees set. */
  lemma FilterInRelationFlag(db: Db, rel: Relation, user: UserId, qs: seq<RecipeId>)
    ensures forall x :: x in FilterInRelation(db, rel, user, qs, true) <==>
              x in qs && RecipeSerializers.InRelation(db, rel, Request(Member(user)), x)
  {
  }

  /** Filtering a newest-first list leaves it newest first. */
  lemma {:induction false} FilterInRelationOrder(db: Db, rel: Relation, user: UserId, qs: seq<RecipeId>, value: bool)
    requires NewestFirst(db.recipes, qs)
    ensures NewestFirst(db.recipes, FilterInRelation(db, rel, user, qs, value))
  {
    if value {
      FilterChained(qs, (x: RecipeId) => Has(TableOf(db, rel), Link(user, x)), NotOlder(db.recipes));
    }
  }

  /** The discrepancy: asking for `is_favorited=true` (or
      `is_in_shopping_cart=true`) fails whatever the database holds, where
      the intended filter answers with a list. */
  lemma FilterInRelationCrashes(db: Db, rel: Relation, user: UserId, qs: seq<RecipeId>)
    ensures FilterInRelationAsWritten(qs, true) == Failure(Crash(UnboundName))
    ensures FilterInRelationAsWritten(qs, false) == Success(FilterInRelation(db, rel, user, qs, false))
  {
  }
}
