/** The recipe viewset's own logic: the `add_to` / `delete_from` helpers
    behind the favorite and shopping-cart actions, and `perform_create`.
    The acting user is an authenticated user id; authentication itself is
    outside the model.
 */
module RecipeViews {
  import opened Replies
  import opened Seqs
  import opened Tables
  import opened Models
  import opened RecipeSerializers

  /** `add_to(model, user, pk, …)`: 404 for an unknown recipe, otherwise
      `model.objects.create(user=…, recipe=…)`, which the UniqueConstraint
      refuses for a pair already present. */
  function AddTo(db: Db, rel: Relation, user: UserId, pk: RecipeId): (out: Step)
    requires Fresh(TableOf(db, rel))
    ensures out.reply in {NotFound, Integrity, Created}
    ensures out.reply == NotFound <==> pk !in db.recipes
    ensures out.reply == Integrity <==> pk in db.recipes && Has(TableOf(db, rel), Link(user, pk))
    ensures out.reply != Created ==> out.db == db
  {
    var (reply, t) := Add(TableOf(db, rel), pk in db.recipes, Link(user, pk));
    if reply == Created then Step(reply, WithTable(db, rel, t)) else Step(reply, db)
  }

  /** `delete_from(model, user, pk)`: 204 after removing the pair when it is
      there, 400 when it is not. */
  function DeleteFrom(db: Db, rel: Relation, user: UserId, pk: RecipeId): (out: Step)
    ensures out.reply in {NoContent, BadRequest}
    ensures out.reply == NoContent <==> Has(TableOf(db, rel), Link(user, pk))
    ensures out.reply == BadRequest ==> out.db == db
  {
    var (reply, t) := Tables.Delete(TableOf(db, rel), Link(user, pk));
    if reply == NoContent then Step(reply, WithTable(db, rel, t)) else Step(reply, db)
  }

  /** The body shared by `get_favorite` and `get_shopping_cart`: POST adds,
      anything else removes. */
  function Toggle(db: Db, rel: Relation, m: Method, user: UserId, pk: RecipeId): Step
    requires Fresh(TableOf(db, rel))
  {
    if m.Post? then AddTo(db, rel, user, pk) else DeleteFrom(db, rel, user, pk)
  }

  /** The `favorite` action. */
  function GetFavorite(db: Db, m: Method, user: UserId, pk: RecipeId): Step
    requires Fresh(db.favorites)
  {
    Toggle(db, Favorites, m, user, pk)
  }

  /** The `shopping_cart` action. */
  function GetShoppingCart(db: Db, m: Method, user: UserId, pk: RecipeId): Step
    requires Fresh(db.carts)
  {
    Toggle(db, Carts, m, user, pk)
  }

  function Other(rel: Relation): Relation {
    if rel == Favorites then Carts else Favorites
  }

  /** A successful POST adds exactly the pair: afterwards the pair is
      there, every other pair of the table is as before, and the other
      table and the rest of the database are untouched. */
  lemma AddToEffect(db: Db, rel: Relation, user: UserId, pk: RecipeId)
    requires Fresh(TableOf(db, rel))
    ensures var out := AddTo(db, rel, user, pk);
            && (out.reply == Created <==> pk in db.recipes && !Has(TableOf(db, rel), Link(user, pk)))
            && Has(TableOf(out.db, rel), Link(user, pk)) == (pk in db.recipes || Has(TableOf(db, rel), Link(user, pk)))
            && (forall l | l != Link(user, pk) :: Has(TableOf(out.db, rel), l) == Has(TableOf(db, rel), l))
            && TableOf(out.db, Other(rel)) == TableOf(db, Other(rel))
            && out.db.(favorites := db.favorites, carts := db.carts) == db
  {
  }

  /** A successful DELETE removes exactly the pair, and touches nothing
      else. */
  lemma DeleteFromEffect(db: Db, rel: Relation, user: UserId, pk: RecipeId)
    ensures var out := DeleteFrom(db, rel, user, pk);
            && !Has(TableOf(out.db, rel), Link(user, pk))
            && (forall l | l != Link(user, pk) :: Has(TableOf(out.db, rel), l) == Has(TableOf(db, rel), l))
            && TableOf(out.db, Other(rel)) == TableOf(db, Other(rel))
            && out.db.(favorites := db.favorites, carts := db.carts) == db
  {
  }

  /** POST then DELETE of a pair that was absent gives back the same rows;
      a second DELETE is refused. */
  lemma AddToThenDeleteFrom(db: Db, rel: Relation, user: UserId, pk: RecipeId)
    requires Fresh(TableOf(db, rel))
    requires pk in db.recipes && !Has(TableOf(db, rel), Link(user, pk))
    ensures var added := AddTo(db, rel, user, pk);
            var removed := DeleteFrom(added.db, rel, user, pk);
            && added.reply == Created && removed.reply == NoContent
            && TableOf(removed.db, rel).rows == TableOf(db, rel).rows
            && removed.db.(favorites := db.favorites, carts := db.carts) == db
            && DeleteFrom(removed.db, rel, user, pk) == Step(BadRequest, removed.db)
  {
    AddThenDelete(TableOf(db, rel), Link(user, pk));
  }

  /** The favorite and shopping-cart actions are the same machine on two
      tables: from equal tables they answer alike and leave equal tables. */
  lemma FavoriteCartSame(db: Db, m: Method, user: UserId, pk: RecipeId)
    requires Fresh(db.favorites) && db.favorites == db.carts
    ensures GetFavorite(db, m, user, pk).reply == GetShoppingCart(db, m, user, pk).reply
    ensures GetFavorite(db, m, user, pk).db.favorites == GetShoppingCart(db, m, user, pk).db.carts
  {
  }

  /** Each action leaves the other's table alone. */
  lemma FavoriteCartIndependent(db: Db, m: Method, user: UserId, pk: RecipeId)
    requires Fresh(db.favorites) && Fresh(db.carts)
    ensures GetFavorite(db, m, user, pk).db.carts == db.carts
    ensures GetShoppingCart(db, m, user, pk).db.favorites == db.favorites
  {
    assert Other(Favorites) == Carts && Other(Carts) == Favorites;
    if m.Post? {
      AddToEffect(db, Favorites, user, pk);
      AddToEffect(db, Carts, user, pk);
    } else {
      DeleteFromEffect(db, Favorites, user, pk);
      DeleteFromEffect(db, Carts, user, pk);
    }
  }

  /** The serializer flag follows the actions: set after a POST that
      created the row or found it there, clear after any DELETE. */
  lemma FlagFollowsToggle(db: Db, rel: Relation, user: UserId, pk: RecipeId)
    requires Fresh(TableOf(db, rel))
    ensures var ctx := Request(Member(user));
            && (AddTo(db, rel, user, pk).reply != NotFound ==> InRelation(AddTo(db, rel, user, pk).db, rel, ctx, pk))
            && !InRelation(DeleteFrom(db, rel, user, pk).db, rel, ctx, pk)
  {
    AddToEffect(db, rel, user, pk);
    DeleteFromEffect(db, rel, user, pk);
  }

  /** The actions keep the database valid when the acting user exists. */
  lemma ToggleValid(db: Db, rel: Relation, m: Method, user: UserId, pk: RecipeId)
    requires Valid(db) && user in db.users
    ensures Fresh(TableOf(db, rel)) && Valid(Toggle(db, rel, m, user, pk).db)
  {
    var t := TableOf(db, rel);
    var out := Toggle(db, rel, m, user, pk);
    if m.Post? && out.reply == Created {
      var t' := Insert(t, Link(user, pk));
      assert References(t', db.users.Keys, db.recipes.Keys) by {
        forall id | id in t'.rows
          ensures t'.rows[id].user in db.users.Keys && t'.rows[id].target in db.recipes.Keys
        {
          if id != t.next {
            assert t'.rows[id] == t.rows[id];
          }
        }
      }
    } else if m.Delete? && out.reply == NoContent {
      var t' := Purge(t, Link(user, pk));
      assert References(t', db.users.Keys, db.recipes.Keys) by {
        forall id | id in t'.rows
          ensures t'.rows[id].user in db.users.Keys && t'.rows[id].target in db.recipes.Keys
        {
          assert t'.rows[id] == t.rows[id];
        }
      }
    }
  }

  /** `perform_create` with the create-and-update serializer the viewset
      evidently means to use: `RecipeCreateUpdateSerializer.create` saves
      with the requesting user as author. */
  function PerformCreate(db: Db, user: UserId, input: RecipeInput, now: nat): (out: Step)
    requires PoolOk(db) && db.nextRecipe !in db.recipes
    ensures out.reply == Created <==>
              Validate(db, input).Success? && RawKeys(input) && AmountsFit(input.ingredients)
    ensures out.reply == Created ==>
              var id := db.nextRecipe;
              && id in out.db.recipes
              && out.db.recipes[id].author == user
              && out.db.recipes[id].text == input.text
              && out.db.recipes[id].tags == Elements(input.tags.value)
              && LinkedKeys(out.db, id) == InputKeys(input.ingredients)
  {
    CreateRecipeContents(db, user, input, now);
    CreateRecipe(db, user, input, now)
  }

  /** `perform_create` as the viewset wires it: `serializer_class` is the
      plain `RecipeSerializer`, a ModelSerializer over `id`, `image`,
      `name` and `cooking_time`. Its `image` is Django REST framework's
      ImageField, which refuses a string ("not a file"), and
      `ModelSerializer.create` saves a recipe whose text is the field's
      empty default and whose two many-to-many sets stay empty. */
  function PerformCreateAsWritten(db: Db, user: UserId, input: RecipeInput, now: nat): (out: Step)
    requires db.nextRecipe !in db.recipes
    ensures out.reply in {Created, Invalid}
    ensures out.reply == Created <==> input.image.Upload?
    ensures out.reply == Invalid ==> out.db == db
    ensures out.reply == Created ==>
              var id := db.nextRecipe;
              && out.db.(recipes := db.recipes, nextRecipe := db.nextRecipe) == db
              && out.db.nextRecipe == id + 1
              && out.db.recipes.Keys == db.recipes.Keys + {id}
              && (forall x | x in db.recipes :: out.db.recipes[x] == db.recipes[x])
              && out.db.recipes[id].author == user
              && out.db.recipes[id].name == input.name
              && out.db.recipes[id].image == input.image.fileName
              && out.db.recipes[id].cookingTime == input.cookingTime
              && out.db.recipes[id].text == ""
              && out.db.recipes[id].ingredients == {}
              && out.db.recipes[id].tags == {}
  {
    match input.image
    case Inline(_) => Step(Invalid, db)
    case Upload(fileName) =>
      var id := db.nextRecipe;
      Step(Created, db.(recipes := db.recipes[id := Recipe(user, input.name, fileName, "", input.cookingTime, now, {}, {})],
                        nextRecipe := id + 1))
  }

  /** The wired view and the intended one disagree on every body either
      accepts. A JSON body with a data-URI image, which the intended view
      stores with its text and ingredient links, is refused outright; an
      upload, on which the intended serializer crashes after inserting the
      bare recipe, is stored without text, tags or links and answered 201. */
  lemma PerformCreateDiscrepancy(db: Db, user: UserId, input: RecipeInput, now: nat)
    requires PoolOk(db) && db.nextRecipe !in db.recipes
    ensures var id := db.nextRecipe;
            var intended := PerformCreate(db, user, input, now);
            var written := PerformCreateAsWritten(db, user, input, now);
            && (intended.reply == Created ==>
                  && input.image.Inline?
                  && written == Step(Invalid, db)
                  && id in intended.db.recipes
                  && LinkedKeys(intended.db, id) != {}
                  && intended.db.recipes[id].text == input.text)
            && (input.image.Upload? && Validate(db, input).Success? ==>
                  && intended.reply == Crash(MissingKey)
                  && intended.db.recipes[id].ingredients == {}
                  && intended.db.recipes[id].tags == {}
                  && intended.db.recipes[id].text == input.text
                  && written.reply == Created
                  && LinkedKeys(written.db, id) == {}
                  && written.db.recipes[id].tags == {}
                  && written.db.recipes[id].text == "")
  {
    var id := db.nextRecipe;
    CreateRecipeContents(db, user, input, now);
    if PerformCreate(db, user, input, now).reply == Created {
      assert Key(input.ingredients[0]) in InputKeys(input.ingredients);
    }
    if input.image.Upload? {
      var written := PerformCreateAsWritten(db, user, input, now);
      assert Keys(BasketOf(written.db, id)) == {};
    }
  }

  /** A full update (PUT) as the viewset wires it: the plain
      `RecipeSerializer` looks the recipe up (404 when there is none),
      refuses a string image, and `ModelSerializer.update` writes the three
      writable fields, leaving the text and both link sets as they were. */
  function UpdateRecipeAsWritten(db: Db, r: RecipeId, input: RecipeInput): (out: Step)
    ensures out.reply in {Ok, NotFound, Invalid}
    ensures out.reply == NotFound <==> r !in db.recipes
    ensures out.reply == Ok <==> r in db.recipes && input.image.Upload?
    ensures out.reply != Ok ==> out.db == db
    ensures out.reply == Ok ==>
              && out.db.(recipes := db.recipes) == db
              && out.db.recipes.Keys == db.recipes.Keys
              && (forall x | x in db.recipes && x != r :: out.db.recipes[x] == db.recipes[x])
              && out.db.recipes[r].(name := db.recipes[r].name, image := db.recipes[r].image,
                                    cookingTime := db.recipes[r].cookingTime) == db.recipes[r]
              && out.db.recipes[r].name == input.name
              && out.db.recipes[r].image == input.image.fileName
              && out.db.recipes[r].cookingTime == input.cookingTime
  {
    if r !in db.recipes then Step(NotFound, db)
    else
      match input.image
      case Inline(_) => Step(Invalid, db)
      case Upload(fileName) =>
        var saved := db.recipes[r].(name := input.name, image := fileName, cookingTime := input.cookingTime);
        Step(Ok, db.(recipes := db.recipes[r := saved]))
  }

  /** The wired update and the intended one disagree on every body either
      accepts. A JSON body with a data-URI image, which the intended update
      applies in full, is refused; an upload, on which the intended
      serializer crashes after clearing both link sets, is applied to the
      three fields only, keeping the old text, tags and links. */
  lemma UpdateRecipeDiscrepancy(db: Db, r: RecipeId, input: RecipeInput)
    requires PoolOk(db)
    ensures var intended := UpdateRecipe(db, r, input);
            var written := UpdateRecipeAsWritten(db, r, input);
            && (intended.reply == Ok ==>
                  && r in db.recipes
                  && input.image.Inline?
                  && written == Step(Invalid, db)
                  && LinkedKeys(intended.db, r) == InputKeys(input.ingredients) != {}
                  && intended.db.recipes[r].text == input.text
                  && intended.db.recipes[r].tags == Elements(input.tags.value))
            && (r in db.recipes && input.image.Upload? && Validate(db, input).Success? ==>
                  && intended == Step(Crash(MissingKey), Unlinked(db, r))
                  && written.reply == Ok
                  && written.db.recipes[r].ingredients == db.recipes[r].ingredients
                  && written.db.recipes[r].tags == db.recipes[r].tags
                  && written.db.recipes[r].text == db.recipes[r].text)
  {
    UpdateRecipeContents(db, r, input);
    if UpdateRecipe(db, r, input).reply == Ok {
      assert Key(input.ingredients[0]) in InputKeys(input.ingredients);
    }
  }
}
