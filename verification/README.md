# foodgram backend — a Dafny model of the domain layer

foodgram is a Django REST backend for sharing recipes. Users publish
recipes built from tags and ingredients with amounts. Users also mark
recipes as favourites, put recipes in a shopping cart and follow other
users. This project models the domain logic under the HTTP and ORM glue, and
proves properties of it.

The database is one immutable value, `Models.Db`:
- users, tags, ingredients and recipes are maps keyed by id;
- the IngredientRecipe table is a *shared pool* of `(ingredient, amount)`
  rows, and a recipe's `ingredients` field is a set of pool row ids;
- Favorite, ShoppingCart and Subscribe are pair tables (`Tables.Table`):
  rows under an auto-increment key, with the UniqueConstraint as an
  invariant.

Every operation is a pure function. It returns a result kind
(`Replies.Reply`) and the database it leaves behind (`Models.Step`).
An exception that nothing catches is a `Crash(fault)` reply.

Modules follow the repository's files:

| module | file | models |
|---|---|---|
| `Replies` | replies.dfy | result kinds, uncaught exceptions, `Option`/`Result` |
| `Text` | text.dfy | `str.split`, `startswith`, `in`, ASCII `lower()`, `int()` on decimal text |
| `Seqs` | seqs.dfy | filtering, order and distinctness of querysets |
| `Tables` | tables.dfy | the pair tables and the add/remove toggle on them |
| `Models` | models.dfy | `app/models.py`, `users/models.py`: schema, constraints, cascades, ordering |
| `RecipeSerializers` | recipe_serializers.dfy | `app/serializers.py`: data-URI image field, validators, `add_ingredient`, create/update, the favourite/cart flags |
| `RecipeViews` | recipe_views.dfy | `app/views.py`: `add_to`, `delete_from`, the favourite and shopping-cart actions, `perform_create` |
| `Filters` | filters.dfy | `app/filters.py`: the FilterSet methods for ingredient name search and `is_favorited` / `is_in_shopping_cart` (no view attaches either FilterSet) |
| `UserSerializers` | user_serializers.dfy | `users/serializers.py`: Subscribe validators, username/email validators, `is_subscribed`, `recipes`, `recipes_count` |
| `UserViews` | user_views.dfy | `users/views.py`: the `subscribe` action |

Points where the code behaves differently from what a reader might expect:
- Deleting a recipe does not delete the pool rows it linked to. The pool is
  shared, and `IngredientRecipe` has no foreign key to `Recipe`.
- `cooking_time` is a plain `IntegerField`, so nothing checks that it is
  positive.
- A `data:image` string without exactly one `;base64,` fails the two-name
  unpacking. That `ValueError` is not a ValidationError, so it is a crash
  rather than a 400.
- Tags are taken from the raw body and set unchecked. The `tags` field is
  read-only, and the many-to-many is declared with `db_constraint=False`.
- Create and update are not atomic. A failing ingredient leaves the links
  made before it.
- `update` clears both link sets before it reads `ingredients` and `tags`
  from the raw body. A body without `tags` therefore raises KeyError after
  the recipe has lost all of its links.
- In a multipart form body, which every file upload is, the nested
  `ingredients` list arrives under indexed keys (`ingredients[0]id`, ...).
  The raw body then has no `ingredients` key, so create and update raise
  KeyError at `self.initial_data.pop('ingredients')`: after inserting the
  bare recipe, or after clearing both link sets. Only a JSON body, with a
  data-URI image, gets through.
- A data URI whose payload is not correctly padded base64 makes
  `b64decode` raise `binascii.Error`, which is no ValidationError either.
- `amount` sets a minimum only. An amount beyond the `PositiveIntegerField`
  column reaches the database and fails there. The model takes the
  column's range on PostgreSQL, where it is a signed 32-bit `integer`
  with a check, so the largest amount is 2147483647.
- `RecipeViewSet.serializer_class` is the plain `RecipeSerializer`
  (views.py line 46). The viewset's create and update are modelled both as
  wired (`RecipeViews.PerformCreateAsWritten`,
  `RecipeViews.UpdateRecipeAsWritten`) and as
  `RecipeCreateUpdateSerializer.create`/`update` (see "## Findings").

## Model

| member | source | states |
|---|---|---|
| `Tables.Add` | backend/app/views.py:18-19 | POST on a pair table: NotFound iff the target is missing; Integrity iff the pair is already there (the UniqueConstraint); otherwise Created with exactly that pair added. A refused add leaves the table unchanged, and uniqueness is kept |
| `Tables.Delete` | backend/app/views.py:25-31 | DELETE on a pair table: NoContent iff the pair was present, and then exactly that pair is gone and every other pair stays; otherwise BadRequest with the table unchanged |
| `Tables.AddThenDelete` | backend/app/views.py:17-31 | Adding an absent pair and then deleting it gives back exactly the original rows; a second delete answers BadRequest |
| `Tables.DeleteThenAdd` | backend/app/views.py:17-31 | Deleting a present pair and adding it again gives back the same set of pairs |
| `Tables.AddTwice` | backend/app/models.py:104-109 | A second POST of the same pair is refused and changes nothing, so one pair is never stored twice |
| `Tables.InsertDuplicates` | backend/app/models.py:104-109 | Without the UniqueConstraint, inserting a pair that is already present would leave two rows with that pair |
| `Tables.Purge` | backend/app/views.py:27-29 | `filter(...).delete()` removes every row with the pair and keeps every other row unchanged under its id |
| `Models.DeleteRecipe` | backend/app/models.py:98-101 | Deleting a recipe removes it, and removes exactly the Favorite and ShoppingCart pairs that point at it; the other recipes and the shared pool stay |
| `Models.DeleteUser` | backend/app/models.py:58-61 | Deleting a user removes exactly the recipes they wrote, their own pairs and the pairs on those recipes, and every Subscribe row on either side. The other users are unchanged, and the ingredients, tags and pool are untouched |
| `Models.DeleteIngredient` | backend/app/models.py:38-41 | Deleting an ingredient removes exactly the pool rows that use it, and each recipe's links to those rows; the other fields of each recipe, the other ingredients, the users and the pair tables stay unchanged |
| `Models.DeleteRecipeValid` | backend/app/models.py:91-135 | Deleting a recipe keeps every declared constraint: unique pairs and foreign keys that point at existing rows |
| `Models.DeleteUserValid` | backend/users/models.py:38-58 | Deleting a user keeps every declared constraint, including the Subscribe foreign keys and unique usernames and emails |
| `Models.DeleteIngredientValid` | backend/app/models.py:35-44 | Deleting an ingredient keeps the pool unique and its foreign keys valid, and recipe links still point at pool rows |
| `Models.InsertByDate` | backend/app/models.py:83 | Inserting a recipe into a newest-first list gives a newest-first list with exactly one more occurrence of it |
| `Models.SortByDate` | backend/app/models.py:83 | The sort is a permutation of its input and is ordered newest first |
| `Models.Listing` | backend/app/models.py:81-83 | `Recipe.objects.all()` lists exactly the stored recipes (every id the counter handed out that is still present), newest first |
| `Models.ListingDistinct` | backend/app/models.py:83 | The listing shows no recipe twice |
| `Models.Authored` | backend/users/serializers.py:95 | `obj.recipe.all()` is exactly the author's recipes, newest first |
| `Models.AuthoredCount` | backend/users/serializers.py:100-101 | The author's listing is as long as the set of recipes they wrote |
| `Text.SplitJoin` | backend/app/serializers.py:46 | Joining the parts of `str.split` with the separator gives back the string |
| `Text.SplitPartsFree` | backend/app/serializers.py:46 | No part of `str.split` contains the separator |
| `Text.LastPartAfterSeparator` | backend/app/serializers.py:47 | `split('/')[-1]` is a suffix holding no `/`, preceded by nothing or by a `/`; a string without `/` is its own last part |
| `Text.Base64DataOnly` | backend/app/serializers.py:48 | A payload of base64 alphabet characters only decodes iff its length is a multiple of four |
| `Text.ParseShowNat` | backend/users/serializers.py:97 | `int()` reads back the decimal text of `n` as `n`, and `-` followed by it as `-n` |
| `RecipeSerializers.SplitDataUri` | backend/app/serializers.py:45-47 | The value passes through iff it is an upload or does not start with `data:image` |
| `RecipeSerializers.DataUriRoundTrip` | backend/app/serializers.py:44-48 | A header starting with `data:image`, the marker, and a payload (neither part holding the marker) split back into the payload and the header's text after its last `/` |
| `RecipeSerializers.DataUriParts` | backend/app/serializers.py:45-47 | Conversely, every accepted split is such a header, marker and payload, with the extension after the header's last `/` |
| `RecipeSerializers.DataUriWithoutMarker` | backend/app/serializers.py:46 | A `data:image` string without `;base64,` cannot be unpacked |
| `RecipeSerializers.ImageValue` | backend/app/serializers.py:44-49 | An upload is kept. A failed unpacking is one crash and nothing else is; a data URI whose payload `b64decode` refuses is the other crash and nothing else is; a string that is no data URI is the only ValidationError |
| `RecipeSerializers.ImagePaddingCrash` | backend/app/serializers.py:48 | The data URI with payload `abc` crashes in `b64decode`, while the same URI with payload `abc=` gives the file `temp.<ext>` |
| `RecipeSerializers.NotEmpty` | backend/app/serializers.py:196-204 | `validate_ingredients` and `validate_tags` refuse exactly the empty list with a ValidationError, and return any other list unchanged |
| `RecipeSerializers.Validate` | backend/app/serializers.py:144-178 | A body is valid iff the image is accepted, the ingredient list is non-empty, and every item names an existing ingredient with `amount >= 1`. An unpacking failure and an undecodable payload each crash, exactly when the image field does; every other failure is a ValidationError |
| `RecipeSerializers.MatchingAtMostOne` | backend/app/serializers.py:18-21 | With a unique pool, the get_or_create lookup finds at most one row, and finds one iff the pool carries the pair |
| `RecipeSerializers.LinkIngredientOutcome` | backend/app/serializers.py:14-22 | One pass is 404 iff the ingredient is unknown, Integrity iff the amount is negative, and a crash iff the amount is beyond the `PositiveIntegerField` column; otherwise it goes through. A failing pass writes nothing |
| `RecipeSerializers.LinkIngredientKeeps` | backend/app/serializers.py:18-22 | One pass keeps the pool unique and drops no row and no link |
| `RecipeSerializers.LinkIngredientReuses` | backend/app/serializers.py:18-22 | A pair the pool already carries creates no row; a pair the recipe already has changes nothing |
| `RecipeSerializers.AddIngredient` | backend/app/serializers.py:13-23 | The loop keeps the pool unique and within the column range, and ends Ok, NotFound, Integrity or the out-of-range crash |
| `RecipeSerializers.AddIngredientExtends` | backend/app/serializers.py:13-23 | The loop never removes a pool row or a link |
| `RecipeSerializers.AddIngredientSucceeds` | backend/app/serializers.py:14-21 | The loop goes through iff every item names a known ingredient with an amount that fits the `PositiveIntegerField` column |
| `RecipeSerializers.AddIngredientOverflows` | backend/app/models.py:42-44 | When every item names a known ingredient with a non-negative amount, the loop either goes through or stops at an amount beyond the column |
| `RecipeSerializers.AddIngredientLinks` | backend/app/serializers.py:13-23 | On success, the recipe's linked pairs are its old pairs plus exactly the items' pairs |
| `RecipeSerializers.AddIngredientPool` | backend/app/serializers.py:18-21 | On success, the pool gains exactly the pairs it lacked |
| `RecipeSerializers.AddIngredientReuses` | backend/app/serializers.py:18-21 | If the pool already carries every pair, the pool and its counter are unchanged |
| `RecipeSerializers.AddIngredientStops` | backend/app/serializers.py:14-17 | The first failing item stops the loop with 404, Integrity or the out-of-range crash, and the items after it are never looked at; the links made by the items before it remain, because there is no rollback |
| `RecipeSerializers.AlreadyLinked` | backend/app/serializers.py:22 | Items whose pairs the recipe already links change nothing |
| `RecipeSerializers.AddIngredientIdempotent` | backend/app/serializers.py:13-23 | Running the loop a second time with the same items changes nothing |
| `RecipeSerializers.AddIngredientToRecipe` | backend/app/serializers.py:13-23 | On a recipe, only the pool, its counter and that recipe's links change, and they change as the loop says |
| `RecipeSerializers.ValidatedItemsLink` | backend/app/serializers.py:151 | A validated ingredient list gets through the loop iff every amount fits the column, and otherwise stops with the out-of-range crash; on success an unlinked recipe ends with exactly the listed pairs |
| `RecipeSerializers.CreateRecipeContents` | backend/app/serializers.py:206-212 | Created iff the body is valid, is JSON, has `tags` and every amount fits the column. The new recipe takes the next id and has the given author, date, name, image, text, cooking time, tags and ingredient pairs; other recipes, the users, ingredients and pair tables are unchanged. An invalid body writes nothing. A form body, such as any upload, or a body without `tags` crashes and leaves the bare recipe behind; an amount beyond the column crashes and leaves the recipe with its tags |
| `RecipeSerializers.UpdateRecipeContents` | backend/app/serializers.py:214-224 | Ok iff the recipe exists, the body is valid, is JSON, has `tags`, and every amount fits the column. The recipe then has exactly the given tags, ingredient pairs and scalar fields, keeps its author and date, and other recipes and tables are unchanged. An unknown id or an invalid body writes nothing. A form body, such as any upload, or a body without `tags` crashes and leaves the recipe with no tags and no ingredients; an amount beyond the column crashes with the new tags set and the old scalar fields |
| `RecipeSerializers.UpdateRecipeIdempotent` | backend/app/serializers.py:214-224 | Sending the same update twice leaves the database as the first update left it |
| `RecipeSerializers.UpdateSettled` | backend/app/serializers.py:214-224 | A valid JSON update with `tags` whose fields, tags and ingredient pairs (all in the pool) already match the recipe answers Ok and changes nothing |
| `RecipeSerializers.ReadInRelation` | backend/app/serializers.py:262-272 | The GetRecipeSerializer flags fail exactly when the context has no request |
| `RecipeSerializers.FlagsAgree` | backend/app/serializers.py:226-240 | The flags are false with no request or for an anonymous user, and otherwise are pair membership; both serializers agree when a request is present |
| `RecipeViews.AddTo` | backend/app/views.py:17-22 | NotFound iff the recipe is missing; Integrity iff the pair is present; a refused add leaves the database unchanged |
| `RecipeViews.DeleteFrom` | backend/app/views.py:25-31 | NoContent iff the pair was present, otherwise BadRequest with the database unchanged |
| `RecipeViews.AddToEffect` | backend/app/views.py:19-22 | A POST leaves the pair present when the recipe exists. No other pair of that table changes, and the other table and the rest of the database are untouched |
| `RecipeViews.DeleteFromEffect` | backend/app/views.py:26-30 | A DELETE leaves the pair absent. No other pair changes, and the other table and the rest of the database are untouched |
| `RecipeViews.AddToThenDeleteFrom` | backend/app/views.py:17-31 | POST then DELETE of an absent pair restores the rows; a second DELETE is BadRequest |
| `RecipeViews.FavoriteCartSame` | backend/app/views.py:57-76 | The favourite and shopping-cart actions behave identically on equal tables |
| `RecipeViews.FavoriteCartIndependent` | backend/app/views.py:57-76 | Each of the two actions leaves the other's table unchanged |
| `RecipeViews.FlagFollowsToggle` | backend/app/serializers.py:226-240 | After a POST that reached the recipe, the serializer flag is set; after a DELETE it is clear |
| `RecipeViews.ToggleValid` | backend/app/models.py:91-135 | The favourite and cart actions keep the database valid when the acting user exists |
| `RecipeViews.PerformCreate` | backend/app/views.py:49-50 | Create with the requesting user as author: Created iff the body is valid, is JSON, has `tags` and every amount fits; the new recipe then has that author, the given text and tags, and exactly the listed ingredient pairs |
| `RecipeViews.PerformCreateAsWritten` | backend/app/views.py:44-50 | Through the plain `RecipeSerializer`: Created iff the image is an upload, and a string image is a ValidationError that writes nothing. The new recipe takes the next id with the requesting user as author, the given name, image and cooking time, an empty text and no tags or ingredients; nothing else changes |
| `RecipeViews.PerformCreateDiscrepancy` | backend/app/serializers.py:161-169 | Every body the intended create stores has a data-URI image, and the wired view refuses it, where the intended recipe has ingredient links and the given text. On a valid upload the intended serializer crashes after inserting the bare recipe, while the wired view answers Created with a recipe without links, tags or text |
| `RecipeViews.UpdateRecipeAsWritten` | backend/app/views.py:44-46 | A full update through the plain `RecipeSerializer`: NotFound iff the recipe is missing, Ok iff it exists and the image is an upload; then only its name, image and cooking time change. Any other reply writes nothing |
| `RecipeViews.UpdateRecipeDiscrepancy` | backend/app/serializers.py:161-169 | Every update the intended serializer makes has a data-URI image, and the wired view refuses it. On a valid upload the intended update crashes with both link sets cleared, while the wired one answers Ok and keeps the old text, tags and ingredient links |
| `Filters.PrefixIsOccurrence` | backend/app/filters.py:17-19 | The `istartswith` half of the query adds nothing: the filter is exactly `icontains` |
| `Filters.FilterName` | backend/app/filters.py:15-24 | The search keeps exactly the ingredients whose name contains the value, ignoring case |
| `Filters.FilterNameOrder` | backend/app/filters.py:19-24 | The prefix matches come first, as many as the queryset holds, and no prefix match follows a non-prefix match |
| `Filters.FilterNamePermutation` | backend/app/filters.py:17-24 | The output is a permutation of the matching subset: nothing is lost or duplicated |
| `Filters.FilterInRelationAsWritten` | backend/app/filters.py:38-46 | `false` returns the queryset unchanged; `true` always crashes on the unbound `request` |
| `Filters.FilterInRelation` | backend/app/filters.py:38-46 | `false` returns the queryset unchanged; `true` keeps exactly the recipes related to the user |
| `Filters.FilterInRelationCrashes` | backend/app/filters.py:40 | With `true` the filter as written fails whatever the database holds; with `false` it agrees with the intended one |
| `Filters.FilterInRelationFlag` | backend/app/filters.py:40 | With `true`, the list holds exactly the recipes whose serializer flag the user sees set |
| `Filters.FilterInRelationOrder` | backend/app/filters.py:38-46 | Filtering a newest-first list leaves it newest first |
| `UserSerializers.ValidateFollowing` | backend/users/serializers.py:23-26 | Refuses exactly a target equal to the requesting user, and returns any other target unchanged |
| `UserSerializers.ValidateUnique` | backend/users/serializers.py:15-21 | Refuses exactly a `(user, following)` pair that is already subscribed |
| `UserSerializers.ValidateSubscribe` | backend/users/serializers.py:9-26 | Valid iff both users exist, the target is not the requester, and the pair is new; every failure is a ValidationError |
| `UserSerializers.ValidatedInsertable` | backend/users/models.py:53-58 | A validated pair always passes the UniqueConstraint |
| `UserSerializers.ValidateUsernameAsWritten` | backend/users/serializers.py:44-49 | Rejects exactly `"me"` (with a crash) and returns any other name unchanged |
| `UserSerializers.ValidateUsername` | backend/users/serializers.py:44-49 | Rejects exactly `"me"` with a ValidationError and returns any other name unchanged |
| `UserSerializers.ValidateUsernameDiscrepancy` | backend/users/serializers.py:46 | Both versions accept the same names, but only the intended one answers 400 for `"me"` |
| `UserSerializers.ValidateEmail` | backend/users/serializers.py:51-52 | The result has the input's length and no capital letter, and at each position is the input's character or, for a capital letter only, its lowercase form |
| `UserSerializers.ValidateEmailIdempotent` | backend/users/serializers.py:51-52 | Validating an address twice equals validating it once |
| `UserSerializers.ValidateEmailKeepsLower` | backend/users/serializers.py:51-52 | An address without capital letters is returned unchanged |
| `UserSerializers.IsSubscribed` | backend/users/serializers.py:75-81 | False with no request or for an anonymous user; otherwise whether the pair is in Subscribe |
| `UserSerializers.DeleteUserUnsubscribes` | backend/users/models.py:38-50 | After a user is deleted, nobody is subscribed to them and they follow nobody; other users' subscriptions are unchanged |
| `UserSerializers.GetRecipes` | backend/users/serializers.py:89-98 | The result is always a prefix of the author's newest-first list. It is the whole list when `recipe_limit` is absent or empty, and has `min(n, count)` items for `n`. A request that is missing, a limit that is not a number, or a negative limit each crash with their own fault |
| `UserSerializers.GetRecipesPrefix` | backend/users/serializers.py:96-97 | A limit `n` gives the first `n` recipes, or all of them when there are fewer |
| `UserSerializers.GetRecipesNegative` | backend/users/serializers.py:97 | A negative limit makes the queryset slice fail |
| `UserSerializers.GetRecipesNotANumber` | backend/users/serializers.py:97 | Any limit holding a character that is neither an ASCII digit nor a leading sign followed by more text makes the modelled `int()` (an optional sign and ASCII digits) fail |
| `UserSerializers.GetRecipesCountMatches` | backend/users/serializers.py:100-101 | `recipes_count` equals the length of the unlimited list and bounds every limited one |
| `UserViews.SubscribePost` | backend/users/views.py:45-49 | NotFound iff the target is missing; Integrity iff the pair exists; otherwise Created with exactly that pair added; the rest of the database is untouched |
| `UserViews.SubscribePostValidated` | backend/users/views.py:45-49 | As above, but a self-follow or a repeated pair is a ValidationError, and the branch never adds a self-follow |
| `UserViews.SubscribeDelete` | backend/users/views.py:50-56 | NoContent iff the pair was present, and then exactly that pair is gone; otherwise BadRequest with the database unchanged |
| `UserViews.SubscribeSelfFollow` | backend/users/views.py:45-49 | The as-written POST, alone and through the action, lets an existing user follow themselves; the validated one refuses it without writing |
| `UserViews.SubscribePostAgree` | backend/users/views.py:45-49 | Apart from a self-follow, both POST branches leave the same database; they differ only in how a repeated pair is refused |
| `UserViews.Subscribe` | backend/users/views.py:41-56 | The action as written: POST ends NotFound, Integrity or Created, DELETE ends NoContent or BadRequest, and only the Subscribe table changes |
| `UserViews.SubscribeValidated` | backend/users/views.py:41-56 | The action with the serializer's validators run on POST: it ends NotFound, a ValidationError or Created, never adds a self-follow, and only the Subscribe table changes |
| `UserViews.SubscribeThenUnsubscribe` | backend/users/views.py:41-56 | Follow then unfollow of an absent pair restores the rows, for any requester including the target; a second unfollow is BadRequest |
| `UserViews.IsSubscribedFollowsAction` | backend/users/serializers.py:75-81 | A POST reaches the target iff the target exists, and `is_subscribed` is then set; a refused repeat means it was set before; after any DELETE it is clear |
| `UserViews.SubscribeValid` | backend/users/models.py:38-58 | The subscribe action as written keeps every declared constraint, its foreign keys and the UniqueConstraint, when the requester exists |
| `UserViews.SubscribeValidatedValid` | backend/users/models.py:38-58 | The validated action keeps the database valid too |

## Left out

- HTTP routing, response bodies, pagination, permission classes and
  authentication. The acting user is a parameter: an authenticated user id
  for the actions, and a `RequestContext` for the serializers.
- The decoded bytes, image validation and file storage behind
  `ContentFile` and `ImageField`. The image value is the stored file name.
- RecipeSerializers.ImageValue: only whether `b64decode` succeeds is
  modelled, following the non-strict scan of CPython's `binascii` (characters
  outside the alphabet are skipped, and padding ends the data). Pillow's
  check that the bytes form an image, whose failure would be a
  ValidationError, is not modelled, so such a payload is accepted here.
- `download_shopping_cart`: its body is empty.
- The `subscriptions` listing, the CSV import command, the admin and the
  migrations.
- Module loading. `users/views.py` imports `RecipeInSubscribtionSerializer`
  from `app.serializers`, which defines no such class. That ImportError
  also breaks `app/urls.py`, which imports `users.views`. `app/admin.py`
  registers `TagRecipe`, which is not defined either. As written, no
  modelled view can serve a request. The view members model the view
  bodies as if the modules loaded.
- RecipeSerializers.AddIngredient: the pool's uniqueness of
  `(ingredient, amount)` is an assumption, not a constraint.
  `get_or_create` keeps it, but the admin site registers `IngredientRecipe`
  and can store a second row with the same pair. `get_or_create` would
  then raise MultipleObjectsReturned. The lemmas about the loop assume a
  unique pool.
- RecipeSerializers.LinkIngredientOutcome: the bound is PostgreSQL's. On
  MySQL the column is unsigned and holds up to 4294967295, and SQLite
  stores 64-bit values. The database settings are not part of this model.
- RecipeSerializers.CreateRecipe: every form body is taken to lack a raw
  `ingredients` key. A form body that also sends a plain `ingredients`
  field pops a list of strings instead. With `tags` present, the tags are
  then set, and `add_ingredient` raises TypeError at `ingredient["id"]`.
  The same holds for `UpdateRecipe`.
- The `tags` and `author` filters of `RecipeFilter`. They are declarative
  lookups with no logic of their own.
- The wiring of the FilterSets. No view sets `filterset_class` or
  `filter_backends`, so `RecipeFilter` and `IngredientFilter` never run,
  and a query parameter such as `?is_favorited=1` is ignored. The `Filters`
  members model the FilterSet methods as they would run once attached.
- Password handling (`CustomUserSerializer.create`, `set_password`) and the
  creation of users.
- Python's and the database's Unicode case rules. Lowercasing is ASCII only.
- Timestamps. `pub_date` is a natural number, given to create as `now`.
- Concurrency. There are no transactions, so nothing here claims atomicity.
- Filters.FilterName: the database orders only by the `startswith` flag.
  The model keeps queryset order inside each group. The proved properties
  (membership, prefix-first order, permutation) hold for any order inside
  the groups.
- Models.Listing: the order between recipes with the same `pub_date` is
  the database's choice. The model keeps them in id order.
- UserSerializers.GetRecipes: `int()` is modelled for an optional sign
  followed by ASCII digits. Python also accepts surrounding whitespace,
  underscores between digits and non-ASCII Unicode decimal digits (such as
  `"٣"`), and the model treats those inputs as not a number.
- UserSerializers.GetRecipesNotANumber: the crash it states holds for the
  modelled `int()` only. Python's `int()` parses `" 5"`, `"5 "`, `"1_0"`
  and `"٣"`, so for those limits the source slices the recipes instead of
  crashing.
- UserSerializers.ValidateEmail: lowercases ASCII letters only, where
  Python's `str.lower` also lowercases other scripts.
- RecipeSerializers.Validate: other field errors (name, text,
  cooking_time types and lengths) are not modelled. The body's fields are
  typed values.
- RecipeViews.PerformCreateAsWritten and RecipeViews.UpdateRecipeAsWritten:
  the plain `RecipeSerializer` copies the column validators. It refuses a
  blank name, a name over 200 characters and a `cooking_time` outside the
  column's range. None of this is modelled.
- Ids in URLs are natural numbers. A non-numeric path segment is not
  modelled. `delete_from` and the subscribe DELETE pass it to `filter`
  with no `get_object_or_404` before it, so Django's integer lookup raises
  ValueError there and the request crashes.
- RecipeSerializers.UpdateRecipe: partial updates (PATCH) are not modelled.
  The body is always complete. A PATCH without `ingredients` raises
  KeyError at `validated_data.pop('ingredients')` after both link sets are
  cleared, before the tags are read. A PATCH keeps the scalar fields it does
  not send.
- RecipeSerializers.UpdateRecipeContents: states full updates only, for
  the same reason as `UpdateRecipe` above.
- RecipeViews.UpdateRecipeAsWritten: models the full update (PUT) only. A
  PATCH through `RecipeSerializer` writes just the fields it sends.

## Findings

| source | as written | input that shows it | evidently intended | confidence | as-written member | corrected member |
|---|---|---|---|---|---|---|
| backend/users/views.py:45-49 | The POST branch creates the Subscribe row directly and never runs `SubscribeSerializer`, so `validate_following` (users/serializers.py:23-26) is dead code | user `u` posts to `/users/u/subscribe/`: `SubscribePost(db, u, u)` answers Created and stores `(u, u)` (`UserViews.SubscribeSelfFollow`) | a self-follow, and a repeated follow, answer 400 through the serializer's validators | medium, not executed | `UserViews.SubscribePost` | `UserViews.SubscribePostValidated` |
| backend/app/filters.py:38-46 | `filter_is_favorited` and `filter_is_in_shopping_cart` read `request.user`, but no `request` is bound in the module or the method | when the FilterSet method runs with `is_favorited` true, `FilterInRelationAsWritten(qs, true)` is a NameError crash for every queryset (`Filters.FilterInRelationCrashes`); no view attaches `RecipeFilter`, so as wired the parameter is ignored | keep the recipes related to the requesting user (`self.request.user`), with `filterset_class = RecipeFilter` on `RecipeViewSet` | high, not executed | `Filters.FilterInRelationAsWritten` | `Filters.FilterInRelation` |
| backend/app/views.py:46 | `RecipeViewSet` uses `RecipeSerializer`, a plain ModelSerializer over `id`, `image`, `name` and `cooking_time` with Django REST framework's own ImageField, so `RecipeCreateUpdateSerializer` (serializers.py:172-224) is never used | a JSON POST whose image is a `data:image/png;base64,…` string is a 400, for every body the intended serializer would store (`RecipeViews.PerformCreateDiscrepancy`, `RecipeViews.UpdateRecipeDiscrepancy`) | `serializer_class` is `RecipeCreateUpdateSerializer` for create and update, storing the base64 image, tags and ingredients of a JSON body | high, not executed | `RecipeViews.PerformCreateAsWritten` | `RecipeViews.PerformCreate` |
| backend/users/serializers.py:44-49 | `validate_username` raises `ValidationError`, a name the module never imports | username `"me"`: `ValidateUsernameAsWritten("me")` is a NameError crash, not a 400 (`UserSerializers.ValidateUsernameDiscrepancy`) | `serializers.ValidationError`, answering 400 | high, not executed | `UserSerializers.ValidateUsernameAsWritten` | `UserSerializers.ValidateUsername` |
