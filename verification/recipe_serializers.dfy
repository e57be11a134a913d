/** The recipe serializers: the base64 image field, the checks `is_valid()`
    runs on a recipe body, `add_ingredient` over the shared pool, recipe
    create and update, and the `is_favorited` / `is_in_shopping_cart` flags.
 */
module RecipeSerializers {
  import opened Replies
  import opened Text
  import opened Seqs
  import opened Tables
  import opened Models

  // ------------------------------------------------------ Base64ImageField

  /** What arrives in the `image` field: an uploaded file, or a string. */
  datatype ImageData = Upload(fileName: string) | Inline(text: string)

  /** The header split of a data URI. */
  datatype DataUri =
    | PassThrough                           // handed to ImageField unchanged
    | Parts(ext: string, payload: string)   // `data:image/<ext>;base64,<payload>`
    | Malformed                             // the two-name unpacking raises

  const ImagePrefix := "data:image"
  const Base64Marker := ";base64,"

  /** The string work of `to_internal_value` before the base64 decoding: a
      string starting with `data:image` is split at `;base64,` into a header
      and a payload, and the extension is what follows the header's last `/`. */
  function SplitDataUri(data: ImageData): (r: DataUri)
    ensures r.PassThrough? <==> data.Upload? || !StartsWith(data.text, ImagePrefix)
  {
    if data.Upload? || !StartsWith(data.text, ImagePrefix) then PassThrough
    else
      var parts := Split(data.text, Base64Marker);
      if |parts| != 2 then Malformed else Parts(LastPart(parts[0], "/"), parts[1])
  }

  /** Joining a header and a payload that hold no marker, then splitting,
      gives back the payload and the header's extension. */
  lemma DataUriRoundTrip(header: string, payload: string)
    requires StartsWith(header, ImagePrefix)
    requires !Contains(header, Base64Marker) && !Contains(payload, Base64Marker)
    ensures SplitDataUri(Inline(header + Base64Marker + payload)) == Parts(LastPart(header, "/"), payload)
  {
    var s := header + Base64Marker + payload;
    var n := |header|;
    assert s[..n] == header;
    assert s[n + |Base64Marker|..] == payload;
    assert OccursAt(s, Base64Marker, n) by {
      assert s[n..n + |Base64Marker|] == Base64Marker;
    }
    forall j | 0 <= j < n
      ensures !OccursAt(s, Base64Marker, j)
    {
      if j + |Base64Marker| <= n {
        assert s[j..j + |Base64Marker|] == header[j..j + |Base64Marker|];
        assert !OccursAt(header, Base64Marker, j);
      } else if j + |Base64Marker| <= |s| {
        assert s[j..j + |Base64Marker|][n - j] == s[n] == ';';
        assert Base64Marker[n - j] != ';';
      }
    }
    IndexFromFirst(s, Base64Marker, 0, n);
    assert IndexFrom(payload, Base64Marker, 0).None?;
    assert Split(s, Base64Marker) == [header, payload];
    assert StartsWith(s, ImagePrefix) by {
      assert s[..|ImagePrefix|] == header[..|ImagePrefix|];
    }
  }

  /** Conversely, every split the field accepts comes from such a pair: the
      input is header, marker, payload, neither part holds the marker, the
      header still starts with `data:image`, and the extension is the text
      after its last `/`. */
  lemma DataUriParts(s: string)
    requires SplitDataUri(Inline(s)).Parts?
    ensures var out := SplitDataUri(Inline(s));
            && !Contains(out.payload, Base64Marker)
            && exists header ::
                 && s == header + Base64Marker + out.payload
                 && StartsWith(header, ImagePrefix)
                 && !Contains(header, Base64Marker)
                 && out.ext == LastPart(header, "/")
  {
    var parts := Split(s, Base64Marker);
    SplitTwo(s, Base64Marker);
    var header := parts[0];
    var n := |header|;
    assert OccursAt(s, Base64Marker, n) by {
      assert s[n..n + |Base64Marker|] == Base64Marker;
    }
    MarkerAfterPrefix(s, n);
    assert header[..|ImagePrefix|] == s[..|ImagePrefix|];
  }

  /** A split into exactly two parts is the first part, the separator and
      the second part, and neither part holds the separator. */
  lemma SplitTwo(s: string, sep: string)
    requires |sep| > 0 && |Split(s, sep)| == 2
    ensures var parts := Split(s, sep);
            && s == parts[0] + sep + parts[1]
            && !Contains(parts[0], sep) && !Contains(parts[1], sep)
  {
    var parts := Split(s, sep);
    SplitJoin(s, sep);
    SplitPartsFree(s, sep);
    assert parts == [parts[0]] + [parts[1]];
    JoinCons(parts[0], [parts[1]], sep);
  }

  /** In a string that starts with `data:image`, the marker can only occur
      after that prefix: the prefix holds no `;`. */
  lemma MarkerAfterPrefix(s: string, i: nat)
    requires StartsWith(s, ImagePrefix) && OccursAt(s, Base64Marker, i)
    ensures i >= |ImagePrefix|
  {
    assert forall j | 0 <= j < |ImagePrefix| :: s[j] == ImagePrefix[j] != ';' by {
      assert s[..|ImagePrefix|] == ImagePrefix;
    }
    assert s[i] == ';' by {
      assert s[i..i + |Base64Marker|] == Base64Marker;
    }
  }

  /** A `data:image` string without the marker cannot be unpacked. */
  lemma DataUriWithoutMarker(s: string)
    requires StartsWith(s, ImagePrefix) && !Contains(s, Base64Marker)
    ensures SplitDataUri(Inline(s)) == Malformed
  {
    assert IndexFrom(s, Base64Marker, 0).None?;
  }

  /** The image field as a whole: an upload is kept, a string that is no
      data URI is refused by ImageField ("not a file"), a data URI whose
      payload decodes becomes the file `temp.<ext>`, and an unpacking or
      decoding failure escapes as a crash. */
  function ImageValue(data: ImageData): (r: Result<string>)
    ensures r.Failure? ==> r.reply in {Invalid, Crash(UnpackMismatch), Crash(BadBase64)}
    ensures r == Failure(Crash(UnpackMismatch)) <==> SplitDataUri(data).Malformed?
    ensures r == Failure(Crash(BadBase64)) <==>
              SplitDataUri(data).Parts? && !Base64Decodes(SplitDataUri(data).payload)
    ensures r == Failure(Invalid) <==> data.Inline? && !StartsWith(data.text, ImagePrefix)
    ensures data.Upload? ==> r == Success(data.fileName)
  {
    match SplitDataUri(data)
    case PassThrough => if data.Upload? then Success(data.fileName) else Failure(Invalid)
    case Parts(ext, payload) =>
      if Base64Decodes(payload) then Success("temp." + ext) else Failure(Crash(BadBase64))
    case Malformed => Failure(Crash(UnpackMismatch))
  }

  /** A data URI whose payload lacks its padding crashes the field: the
      payload `abc` holds three data characters, `abc=` is padded. */
  lemma ImagePaddingCrash(header: string)
    requires StartsWith(header, ImagePrefix) && !Contains(header, Base64Marker)
    ensures ImageValue(Inline(header + Base64Marker + "abc")) == Failure(Crash(BadBase64))
    ensures ImageValue(Inline(header + Base64Marker + "abc=")) == Success("temp." + LastPart(header, "/"))
  {
    assert !Base64Decodes("abc") by {
      Base64DataOnly("abc", 0, 0);
    }
    assert Base64Decodes("abc=");
    DataUriRoundTrip(header, "abc");
    DataUriRoundTrip(header, "abc=");
  }

  // ------------------------------------------------------------ validation

  /** One item of the body's `ingredients` list: `{"id": …, "amount": …}`. */
  datatype IngredientInput = IngredientInput(id: nat, amount: int)

  /** The writable part of a recipe body. `tags` is read from the raw data
      with `pop`, so it may be missing. `form` tells a multipart form body
      from a JSON one. */
  datatype RecipeInput = RecipeInput(
    name: string,
    text: string,
    cookingTime: int,
    image: ImageData,
    ingredients: seq<IngredientInput>,
    tags: Option<seq<TagId>>,
    form: bool)

  /** A multipart form body. A file can only be uploaded in one. There the
      nested `ingredients` list arrives under indexed keys
      (`ingredients[0]id`, ...), so the raw data holds no `ingredients`
      key. */
  predicate Multipart(input: RecipeInput) {
    input.form || input.image.Upload?
  }

  /** The raw data holds both keys that create and update `pop`: a JSON
      body that carries `tags`. */
  predicate RawKeys(input: RecipeInput) {
    !Multipart(input) && input.tags.Some?
  }

  /** IngredientCreateInRecipeSerializer: the id names an existing
      ingredient and `amount` has min_value=1. */
  predicate ItemValid(db: Db, item: IngredientInput) {
    item.id in db.ingredients && item.amount >= 1
  }

  /** `validate_ingredients` and `validate_tags`: at least one element. The
      `tags` field is read-only, so `is_valid()` never runs the tag check. */
  function NotEmpty<T>(value: seq<T>): (r: Result<seq<T>>)
    ensures r.Failure? <==> |value| == 0
    ensures r.Failure? ==> r.reply == Invalid
    ensures r.Success? ==> r.value == value
  {
    if |value| < 1 then Failure(Invalid) else Success(value)
  }

  /** `is_valid()` of RecipeCreateUpdateSerializer, giving the stored image
      name. Field errors are collected, but the image field's unpacking
      and decoding errors are no ValidationError and escape at once. */
  function Validate(db: Db, input: RecipeInput): (r: Result<string>)
    ensures r.Success? <==>
              && ImageValue(input.image).Success?
              && |input.ingredients| > 0
              && forall i | 0 <= i < |input.ingredients| :: ItemValid(db, input.ingredients[i])
    ensures r.Success? ==> r.value == ImageValue(input.image).value
    ensures r.Failure? ==> r.reply in {Invalid, Crash(UnpackMismatch), Crash(BadBase64)}
    ensures r == Failure(Crash(UnpackMismatch)) <==> SplitDataUri(input.image).Malformed?
    ensures r == Failure(Crash(BadBase64)) <==> ImageValue(input.image) == Failure(Crash(BadBase64))
  {
    var image := ImageValue(input.image);
    if image.Failure? && image.reply.Crash? then Failure(image.reply)
    else if image.Failure?
      || NotEmpty(input.ingredients).Failure?
      || exists i | 0 <= i < |input.ingredients| :: !ItemValid(db, input.ingredients[i])
    then Failure(Invalid)
    else Success(image.value)
  }

  // -------------------------------------------------------- add_ingredient

  /** The part of the database `add_ingredient` reads and writes: the shared
      IngredientRecipe pool, its id counter, and the pool rows the recipe
      being filled is linked to. */
  datatype Basket = Basket(pool: map<RowId, PoolRow>, nextRow: nat, links: set<RowId>)

  /** The outcome of one pass of the loop, or of the whole loop. */
  datatype Pass = Pass(reply: Reply, basket: Basket)

  /** Pool ids come from the counter, no two rows carry the same
      (ingredient, amount), every amount fits the column, and the links
      point at pool rows. */
  predicate BasketOk(b: Basket) {
    && (forall id | id in b.pool :: id < b.nextRow)
    && PoolUnique(b.pool)
    && PoolBounded(b.pool)
    && b.links <= b.pool.Keys
  }

  /** `b'` keeps every pool row and every link of `b`. */
  predicate Extends(b: Basket, b': Basket) {
    && b.nextRow <= b'.nextRow
    && b.links <= b'.links
    && (forall id | id in b.pool :: id in b'.pool && b'.pool[id] == b.pool[id])
  }

  /** The pool row an item asks for. */
  function Key(item: IngredientInput): PoolRow
    requires item.amount >= 0
  {
    PoolRow(item.id, item.amount as nat)
  }

  /** The (ingredient, amount) pairs a list of items asks for. */
  function InputKeys(items: seq<IngredientInput>): set<PoolRow> {
    set item | item in items && item.amount >= 0 :: Key(item)
  }

  /** The pairs carried by the pool rows `ids`. */
  function Image(pool: map<RowId, PoolRow>, ids: set<RowId>): set<PoolRow> {
    set id | id in ids && id in pool :: pool[id]
  }

  /** The (ingredient, amount) pairs the recipe is linked to. */
  function Keys(b: Basket): set<PoolRow> {
    Image(b.pool, b.links)
  }

  lemma ImageAdd(pool: map<RowId, PoolRow>, ids: set<RowId>, id: RowId)
    requires id in pool
    ensures Image(pool, ids + {id}) == Image(pool, ids) + {pool[id]}
  {
  }

  lemma ImageMember(pool: map<RowId, PoolRow>, ids: set<RowId>, v: PoolRow)
    requires v in Image(pool, ids)
    ensures exists id :: id in ids && id in pool && pool[id] == v
  {
  }

  /** A new pool row under a fresh id leaves the pairs of old links alone. */
  lemma ImageGrow(pool: map<RowId, PoolRow>, ids: set<RowId>, n: RowId, v: PoolRow)
    requires n !in ids
    ensures Image(pool[n := v], ids) == Image(pool, ids)
  {
    forall w | w in Image(pool[n := v], ids)
      ensures w in Image(pool, ids)
    {
      ImageMember(pool[n := v], ids, w);
      var id :| id in ids && id in pool[n := v] && pool[n := v][id] == w;
      assert pool[id] == w;
    }
    forall w | w in Image(pool, ids)
      ensures w in Image(pool[n := v], ids)
    {
      ImageMember(pool, ids, w);
      var id :| id in ids && id in pool && pool[id] == w;
      assert pool[n := v][id] == w;
    }
  }

  /** With a unique pool, the rows a recipe links are fixed by the pairs
      they carry. */
  lemma SameKeysSameLinks(pool: map<RowId, PoolRow>, a: set<RowId>, b: set<RowId>)
    requires PoolUnique(pool) && a <= pool.Keys && b <= pool.Keys
    requires Image(pool, a) == Image(pool, b)
    ensures a == b
  {
    forall x | x in a
      ensures x in b
    {
      assert pool[x] in Image(pool, a);
      ImageMember(pool, b, pool[x]);
    }
    forall x | x in b
      ensures x in a
    {
      assert pool[x] in Image(pool, b);
      ImageMember(pool, a, pool[x]);
    }
  }

  /** A row carrying a new pair under an unused id keeps the pool unique
      and adds exactly that pair. */
  lemma GrowPool(pool: map<RowId, PoolRow>, n: RowId, v: PoolRow)
    requires PoolUnique(pool) && n !in pool && v !in pool.Values
    ensures PoolUnique(pool[n := v])
    ensures pool[n := v].Values == pool.Values + {v}
  {
    var grown := pool[n := v];
    assert grown[n] == v;
    forall w | w in grown.Values
      ensures w in pool.Values + {v}
    {
      var k :| k in grown && grown[k] == w;
      if k != n {
        assert pool[k] == w;
      }
    }
    forall w | w in pool.Values
      ensures w in grown.Values
    {
      var k :| k in pool && pool[k] == w;
      assert grown[k] == w;
    }
    forall a, b | a in grown && b in grown && a != b
      ensures grown[a] != grown[b]
    {
      if a == n {
        assert grown[b] == pool[b] && pool[b] in pool.Values;
      } else if b == n {
        assert grown[a] == pool[a] && pool[a] in pool.Values;
      }
    }
  }

  /** `IngredientRecipe.objects.filter(ingredient=…, amount=…)`. */
  function Matching(b: Basket, ingredient: IngredientId, amount: int): (ids: seq<RowId>)
    ensures forall id :: id in ids <==>
              id in b.pool && id < b.nextRow
              && b.pool[id].ingredient == ingredient && b.pool[id].amount == amount
    ensures Chained(ids, Ascending())
  {
    KeysBelow(b.pool, b.nextRow, (row: PoolRow) => row.ingredient == ingredient && row.amount == amount)
  }

  /** With the pool unique, a lookup matches at most one row, and one
      exactly when the pool carries the pair. */
  lemma MatchingAtMostOne(b: Basket, ingredient: IngredientId, amount: int)
    requires BasketOk(b)
    ensures |Matching(b, ingredient, amount)| <= 1
    ensures |Matching(b, ingredient, amount)| == 1 <==>
              amount >= 0 && PoolRow(ingredient, amount as nat) in b.pool.Values
  {
    var m := Matching(b, ingredient, amount);
    AscendingDistinct(m);
    if |m| > 0 {
      var x := m[0];
      assert x in m;
      forall i | 0 <= i < |m|
        ensures m[i] == x
      {
        assert m[i] in m;
        assert b.pool[m[i]] == b.pool[x];
      }
      DistinctConstant(m, x);
      assert b.pool[x] in b.pool.Values;
    }
    if amount >= 0 && PoolRow(ingredient, amount as nat) in b.pool.Values {
      var id :| id in b.pool && b.pool[id] == PoolRow(ingredient, amount as nat);
      assert id in m;
    }
  }

  /** A strictly increasing sequence repeats nothing. */
  lemma AscendingDistinct(m: seq<nat>)
    requires Chained(m, Ascending())
    ensures Distinct(m)
  {
    forall i, j | 0 <= i < j < |m|
      ensures m[i] != m[j]
    {
      assert Ascending()(m[i], m[j]);
    }
  }

  /** A sequence without repetitions whose elements all equal `x` has at
      most one element. */
  lemma DistinctConstant(m: seq<nat>, x: nat)
    requires Distinct(m) && forall i | 0 <= i < |m| :: m[i] == x
    ensures |m| <= 1
  {
    DistinctCardinality(m);
    assert Elements(m) <= {x};
    if |m| > 0 {
      assert Elements(m) == {x};
    }
  }

  /** `IngredientRecipe.objects.create(...)` under the counter's id. */
  function Grow(b: Basket, v: PoolRow): Basket {
    b.(pool := b.pool[b.nextRow := v], nextRow := b.nextRow + 1)
  }

  /** `recipe.ingredients.add(row)`. */
  function LinkRow(b: Basket, id: RowId): Basket {
    b.(links := b.links + {id})
  }

  /** One pass of the `add_ingredient` loop, `known` being the ids of the
      Ingredient table: look the ingredient up (404), get or create the pool
      row (a second match is MultipleObjectsReturned, a negative amount
      breaks the CHECK of the positive field, an amount past the column's
      range is refused by the database), link it to the recipe. */
  function LinkIngredient(known: set<IngredientId>, b: Basket, item: IngredientInput): Pass {
    if item.id !in known then Pass(NotFound, b)
    else
      var found := Matching(b, item.id, item.amount);
      if |found| > 1 then Pass(Crash(MultipleRows), b)
      else if |found| == 1 then Pass(Ok, LinkRow(b, found[0]))
      else if item.amount < 0 then Pass(Integrity, b)
      else if item.amount > AmountMax then Pass(Crash(OutOfRange), b)
      else Pass(Ok, LinkRow(Grow(b, Key(item)), b.nextRow))
  }

  /** One pass answers 404 for an unknown ingredient, an integrity error for
      a negative amount, a database error for an amount past the column's
      range, and goes through otherwise; a failing pass writes nothing. */
  lemma LinkIngredientOutcome(known: set<IngredientId>, b: Basket, item: IngredientInput)
    requires BasketOk(b)
    ensures var out := LinkIngredient(known, b, item);
            && (out.reply == Ok <==> item.id in known && 0 <= item.amount <= AmountMax)
            && (out.reply != Ok ==> out.basket == b)
            && (out.reply == NotFound <==> item.id !in known)
            && (out.reply == Integrity <==> item.id in known && item.amount < 0)
            && (out.reply == Crash(OutOfRange) <==> item.id in known && item.amount > AmountMax)
  {
    if item.id in known {
      MatchingAtMostOne(b, item.id, item.amount);
      if item.amount > AmountMax {
        TooLargeAbsent(b, item.id, item.amount);
      }
    }
  }

  /** No pool row carries an amount past the column's range. */
  lemma TooLargeAbsent(b: Basket, ingredient: IngredientId, amount: int)
    requires BasketOk(b) && amount > AmountMax
    ensures PoolRow(ingredient, amount as nat) !in b.pool.Values
  {
  }

  /** One pass keeps the pool invariant and drops no row and no link. */
  lemma LinkIngredientKeeps(known: set<IngredientId>, b: Basket, item: IngredientInput)
    requires BasketOk(b)
    ensures BasketOk(LinkIngredient(known, b, item).basket)
    ensures Extends(b, LinkIngredient(known, b, item).basket)
  {
    if item.id in known {
      MatchingAtMostOne(b, item.id, item.amount);
      var found := Matching(b, item.id, item.amount);
      if |found| == 1 {
        assert found[0] in found;
      } else if 0 <= item.amount <= AmountMax {
        GrowKeeps(b, Key(item));
      }
    }
  }

  /** A fresh row for a pair the pool lacks, linked at once, keeps the pool
      invariant. */
  lemma GrowKeeps(b: Basket, v: PoolRow)
    requires BasketOk(b) && v !in b.pool.Values && v.amount <= AmountMax
    ensures BasketOk(LinkRow(Grow(b, v), b.nextRow)) && Extends(b, LinkRow(Grow(b, v), b.nextRow))
  {
    GrowPool(b.pool, b.nextRow, v);
  }

  /** A pass that goes through links the recipe to a row carrying the
      item's pair, and the pool gains that pair if it lacked it. */
  lemma LinkIngredientKeys(known: set<IngredientId>, b: Basket, item: IngredientInput)
    requires BasketOk(b) && LinkIngredient(known, b, item).reply == Ok
    ensures item.amount >= 0
    ensures var out := LinkIngredient(known, b, item).basket;
            && Keys(out) == Keys(b) + {Key(item)}
            && out.pool.Values == b.pool.Values + {Key(item)}
  {
    LinkIngredientOutcome(known, b, item);
    MatchingAtMostOne(b, item.id, item.amount);
    var found := Matching(b, item.id, item.amount);
    if |found| == 1 {
      assert found[0] in found;
      ReuseKeys(b, found[0], Key(item));
    } else {
      GrowKeys(b, Key(item));
    }
  }

  /** Linking a row already in the pool adds its pair to the recipe. */
  lemma ReuseKeys(b: Basket, id: RowId, v: PoolRow)
    requires id in b.pool && b.pool[id] == v
    ensures Keys(LinkRow(b, id)) == Keys(b) + {v}
    ensures LinkRow(b, id).pool.Values == b.pool.Values + {v}
  {
    ImageAdd(b.pool, b.links, id);
  }

  /** Creating a row for a pair the pool lacks and linking it adds that
      pair to the pool and to the recipe. */
  lemma GrowKeys(b: Basket, v: PoolRow)
    requires BasketOk(b) && v !in b.pool.Values
    ensures Keys(LinkRow(Grow(b, v), b.nextRow)) == Keys(b) + {v}
    ensures LinkRow(Grow(b, v), b.nextRow).pool.Values == b.pool.Values + {v}
  {
    var grown := Grow(b, v);
    GrowPool(b.pool, b.nextRow, v);
    ImageGrow(b.pool, b.links, b.nextRow, v);
    ImageAdd(grown.pool, b.links, b.nextRow);
  }

  /** A pass whose pair the pool already carries writes no pool row, and
      one whose pair the recipe already has changes nothing at all. */
  lemma LinkIngredientReuses(known: set<IngredientId>, b: Basket, item: IngredientInput)
    requires BasketOk(b) && item.id in known && item.amount >= 0
    ensures Key(item) in b.pool.Values ==>
              LinkIngredient(known, b, item).basket.pool == b.pool
              && LinkIngredient(known, b, item).basket.nextRow == b.nextRow
    ensures Key(item) in Keys(b) ==> LinkIngredient(known, b, item) == Pass(Ok, b)
  {
    MatchingAtMostOne(b, item.id, item.amount);
    var found := Matching(b, item.id, item.amount);
    if Key(item) in Keys(b) {
      ImageMember(b.pool, b.links, Key(item));
      var other :| other in b.links && other in b.pool && b.pool[other] == Key(item);
      assert b.pool[other] in b.pool.Values;
      assert found[0] in found;
      assert other == found[0];
      assert b.links + {other} == b.links;
    }
  }

  /** `add_ingredient(ingredients, obj)`: the loop over the items. Nothing
      wraps it in a transaction, so a failing item leaves the links made
      before it in place. */
  function AddIngredient(known: set<IngredientId>, b: Basket, items: seq<IngredientInput>): (out: Pass)
    requires BasketOk(b)
    ensures BasketOk(out.basket)
    ensures out.reply in {Ok, NotFound, Integrity, Crash(OutOfRange)}
    decreases |items|
  {
    if |items| == 0 then Pass(Ok, b)
    else
      var first := LinkIngredient(known, b, items[0]);
      LinkIngredientOutcome(known, b, items[0]);
      LinkIngredientKeeps(known, b, items[0]);
      if first.reply != Ok then first else AddIngredient(known, first.basket, items[1..])
  }

  /** The loop drops no pool row and no link. */
  lemma {:induction false} AddIngredientExtends(known: set<IngredientId>, b: Basket, items: seq<IngredientInput>)
    requires BasketOk(b)
    ensures Extends(b, AddIngredient(known, b, items).basket)
    decreases |items|
  {
    if |items| > 0 {
      var first := LinkIngredient(known, b, items[0]);
      LinkIngredientOutcome(known, b, items[0]);
      LinkIngredientKeeps(known, b, items[0]);
      if first.reply == Ok {
        AddIngredientExtends(known, first.basket, items[1..]);
      }
    }
  }

  lemma InputKeysCons(items: seq<IngredientInput>)
    requires |items| > 0
    ensures InputKeys(items) ==
              (if items[0].amount >= 0 then {Key(items[0])} else {}) + InputKeys(items[1..])
  {
    assert forall item :: item in items <==> item == items[0] || item in items[1..] by {
      assert items == [items[0]] + items[1..];
    }
  }

  /** All items name a known ingredient with an amount the column holds. */
  predicate ItemsLinkable(known: set<IngredientId>, items: seq<IngredientInput>) {
    forall i | 0 <= i < |items| :: items[i].id in known && 0 <= items[i].amount <= AmountMax
  }

  lemma ItemsLinkableCons(known: set<IngredientId>, items: seq<IngredientInput>)
    requires |items| > 0
    ensures ItemsLinkable(known, items) <==>
              items[0].id in known && 0 <= items[0].amount <= AmountMax && ItemsLinkable(known, items[1..])
  {
    assert forall i | 1 <= i < |items| :: items[i] == items[1..][i - 1];
  }

  /** `add_ingredient` goes through exactly when every item names a known
      ingredient with an amount the column holds. */
  lemma {:induction false} AddIngredientSucceeds(known: set<IngredientId>, b: Basket, items: seq<IngredientInput>)
    requires BasketOk(b)
    ensures AddIngredient(known, b, items).reply == Ok <==> ItemsLinkable(known, items)
    decreases |items|
  {
    if |items| > 0 {
      var first := LinkIngredient(known, b, items[0]);
      LinkIngredientOutcome(known, b, items[0]);
      ItemsLinkableCons(known, items);
      if first.reply == Ok {
        AddIngredientSucceeds(known, first.basket, items[1..]);
      }
    }
  }

  /** When `add_ingredient` goes through, the recipe gains a link for each
      item's pair and nothing else new. */
  lemma {:induction false} AddIngredientLinks(known: set<IngredientId>, b: Basket, items: seq<IngredientInput>)
    requires BasketOk(b) && AddIngredient(known, b, items).reply == Ok
    ensures Keys(AddIngredient(known, b, items).basket) == Keys(b) + InputKeys(items)
    decreases |items|
  {
    if |items| > 0 {
      var first := LinkIngredient(known, b, items[0]);
      LinkIngredientOutcome(known, b, items[0]);
      LinkIngredientKeys(known, b, items[0]);
      LinkIngredientKeeps(known, b, items[0]);
      InputKeysCons(items);
      AddIngredientLinks(known, first.basket, items[1..]);
      var rest := AddIngredient(known, first.basket, items[1..]).basket;
      assert AddIngredient(known, b, items).basket == rest;
      assert Keys(rest) == Keys(first.basket) + InputKeys(items[1..]);
    }
  }

  /** When `add_ingredient` goes through, the pool gains exactly the pairs
      it lacked. */
  lemma {:induction false} AddIngredientPool(known: set<IngredientId>, b: Basket, items: seq<IngredientInput>)
    requires BasketOk(b) && AddIngredient(known, b, items).reply == Ok
    ensures AddIngredient(known, b, items).basket.pool.Values == b.pool.Values + InputKeys(items)
    decreases |items|
  {
    if |items| > 0 {
      var first := LinkIngredient(known, b, items[0]);
      LinkIngredientOutcome(known, b, items[0]);
      LinkIngredientKeys(known, b, items[0]);
      LinkIngredientKeeps(known, b, items[0]);
      InputKeysCons(items);
      AddIngredientPool(known, first.basket, items[1..]);
      var rest := AddIngredient(known, first.basket, items[1..]).basket;
      assert AddIngredient(known, b, items).basket == rest;
      assert rest.pool.Values == first.basket.pool.Values + InputKeys(items[1..]);
    }
  }

  /** A pool that already carries every pair asked for is not written to. */
  lemma {:induction false} AddIngredientReuses(known: set<IngredientId>, b: Basket, items: seq<IngredientInput>)
    requires BasketOk(b) && AddIngredient(known, b, items).reply == Ok
    requires InputKeys(items) <= b.pool.Values
    ensures AddIngredient(known, b, items).basket.pool == b.pool
    ensures AddIngredient(known, b, items).basket.nextRow == b.nextRow
    decreases |items|
  {
    if |items| > 0 {
      var first := LinkIngredient(known, b, items[0]);
      LinkIngredientOutcome(known, b, items[0]);
      LinkIngredientReuses(known, b, items[0]);
      InputKeysCons(items);
      AddIngredientReuses(known, first.basket, items[1..]);
    }
  }

  /** The answer of one pass on an item it refuses: 404 for an unknown
      ingredient, an integrity error for a negative amount and a database
      error for one past the column's range. */
  function Refusal(known: set<IngredientId>, item: IngredientInput): Reply {
    if item.id !in known then NotFound
    else if item.amount < 0 then Integrity
    else Crash(OutOfRange)
  }

  /** A failing item stops the loop: the basket is the one the items before
      it produced, the items after it are never looked at, and the answer
      is the one pass's refusal. */
  lemma {:induction false} AddIngredientStops(known: set<IngredientId>, b: Basket, done: seq<IngredientInput>,
                                              bad: IngredientInput, rest: seq<IngredientInput>)
    requires BasketOk(b) && ItemsLinkable(known, done)
    requires bad.id !in known || bad.amount < 0 || bad.amount > AmountMax
    ensures AddIngredient(known, b, done).reply == Ok
    ensures AddIngredient(known, b, done + [bad] + rest) ==
              Pass(Refusal(known, bad), AddIngredient(known, b, done).basket)
    decreases |done|
  {
    var items := done + [bad] + rest;
    if |done| == 0 {
      assert items == [bad] + rest;
      FirstItemFails(known, b, items);
    } else {
      assert items[0] == done[0];
      assert items[1..] == done[1..] + [bad] + rest;
      ItemsLinkableCons(known, done);
      var next := FirstItemPasses(known, b, items);
      var _ := FirstItemPasses(known, b, done);
      AddIngredientStops(known, next, done[1..], bad, rest);
    }
  }

  /** A first item that goes through hands its basket on to the rest of the
      loop. */
  lemma FirstItemPasses(known: set<IngredientId>, b: Basket, items: seq<IngredientInput>) returns (next: Basket)
    requires BasketOk(b)
    requires |items| > 0 && items[0].id in known && 0 <= items[0].amount <= AmountMax
    ensures BasketOk(next) && next == LinkIngredient(known, b, items[0]).basket
    ensures AddIngredient(known, b, items) == AddIngredient(known, next, items[1..])
  {
    LinkIngredientOutcome(known, b, items[0]);
    LinkIngredientKeeps(known, b, items[0]);
    next := LinkIngredient(known, b, items[0]).basket;
  }

  /** A first item that fails ends the loop at once, with nothing written. */
  lemma FirstItemFails(known: set<IngredientId>, b: Basket, items: seq<IngredientInput>)
    requires BasketOk(b)
    requires |items| > 0 && (items[0].id !in known || items[0].amount < 0 || items[0].amount > AmountMax)
    ensures AddIngredient(known, b, items) == Pass(Refusal(known, items[0]), b)
  {
    LinkIngredientOutcome(known, b, items[0]);
  }

  /** Items whose pairs the recipe already has change nothing. */
  lemma {:induction false} AlreadyLinked(known: set<IngredientId>, b: Basket, items: seq<IngredientInput>)
    requires BasketOk(b) && ItemsLinkable(known, items) && InputKeys(items) <= Keys(b)
    ensures AddIngredient(known, b, items) == Pass(Ok, b)
    decreases |items|
  {
    if |items| > 0 {
      LinkIngredientReuses(known, b, items[0]);
      ItemsLinkableCons(known, items);
      InputKeysCons(items);
      AlreadyLinked(known, b, items[1..]);
    }
  }

  /** Running `add_ingredient` again with the same items changes nothing:
      every pair is found in the pool and is already linked. */
  lemma AddIngredientIdempotent(known: set<IngredientId>, b: Basket, items: seq<IngredientInput>)
    requires BasketOk(b) && AddIngredient(known, b, items).reply == Ok
    ensures var once := AddIngredient(known, b, items).basket;
            AddIngredient(known, once, items) == Pass(Ok, once)
  {
    AddIngredientSucceeds(known, b, items);
    AddIngredientLinks(known, b, items);
    AlreadyLinked(known, AddIngredient(known, b, items).basket, items);
  }

  // ------------------------------------------------- the loop on a recipe

  /** What the recipe serializer needs of the database: ids below the
      counter, a unique pool, recipe links to existing pool rows. */
  predicate PoolOk(db: Db) {
    && (forall id | id in db.pool :: id < db.nextRow)
    && PoolUnique(db.pool)
    && PoolBounded(db.pool)
    && (forall x | x in db.recipes :: db.recipes[x].ingredients <= db.pool.Keys)
  }

  lemma ValidPoolOk(db: Db)
    requires Valid(db)
    ensures PoolOk(db)
  {
  }

  /** The pool as seen from recipe `r`. */
  function BasketOf(db: Db, r: RecipeId): (b: Basket)
    requires r in db.recipes
  {
    Basket(db.pool, db.nextRow, db.recipes[r].ingredients)
  }

  /** The (ingredient, amount) pairs recipe `r` is linked to. */
  function LinkedKeys(db: Db, r: RecipeId): set<PoolRow>
    requires r in db.recipes
  {
    Keys(BasketOf(db, r))
  }

  /** `add_ingredient(ingredients, obj)` run on the recipe with id `r`:
      only the pool and the links of `r` change. */
  function AddIngredientToRecipe(db: Db, items: seq<IngredientInput>, r: RecipeId): (out: Step)
    requires r in db.recipes && PoolOk(db)
    ensures r in out.db.recipes && PoolOk(out.db)
    ensures out.db.(pool := db.pool, nextRow := db.nextRow, recipes := db.recipes) == db
    ensures out.db.recipes == db.recipes[r := db.recipes[r].(ingredients := out.db.recipes[r].ingredients)]
    ensures out.reply == AddIngredient(db.ingredients.Keys, BasketOf(db, r), items).reply
    ensures BasketOf(out.db, r) == AddIngredient(db.ingredients.Keys, BasketOf(db, r), items).basket
  {
    var pass := AddIngredient(db.ingredients.Keys, BasketOf(db, r), items);
    AddIngredientExtends(db.ingredients.Keys, BasketOf(db, r), items);
    Step(pass.reply, db.(pool := pass.basket.pool, nextRow := pass.basket.nextRow,
                         recipes := db.recipes[r := db.recipes[r].(ingredients := pass.basket.links)]))
  }

  // ------------------------------------------------------- create / update

  /** `recipe.tags.set(tags)`: the tags become exactly the given ones. */
  function SetTags(db: Db, r: RecipeId, tags: seq<TagId>): (db': Db)
    requires r in db.recipes
    ensures r in db'.recipes && db'.recipes[r].tags == Elements(tags)
  {
    db.(recipes := db.recipes[r := db.recipes[r].(tags := Elements(tags))])
  }

  /** `RecipeCreateUpdateSerializer.create`: insert the recipe for the
      author given by the view at time `now`, take the ingredient list and
      then the tags from the raw body (a missing key raises after the
      insert), set the tags, then run `add_ingredient` on the raw list. */
  function CreateRecipe(db: Db, author: UserId, input: RecipeInput, now: nat): (out: Step)
    requires PoolOk(db) && db.nextRecipe !in db.recipes
  {
    match Validate(db, input)
    case Failure(reply) => Step(reply, db)
    case Success(image) =>
      var id := db.nextRecipe;
      var recipe := Recipe(author, input.name, image, input.text, input.cookingTime, now, {}, {});
      var created := db.(recipes := db.recipes[id := recipe], nextRecipe := id + 1);
      if !RawKeys(input) then Step(Crash(MissingKey), created)
      else
        var linked := AddIngredientToRecipe(SetTags(created, id, input.tags.value), input.ingredients, id);
        if linked.reply != Ok then linked else Step(Created, linked.db)
  }

  /** Recipe `r` with both link sets emptied. */
  function Unlinked(db: Db, r: RecipeId): (db': Db)
    requires r in db.recipes
    ensures r in db'.recipes && db'.recipes[r].ingredients == {} && db'.recipes[r].tags == {}
  {
    db.(recipes := db.recipes[r := db.recipes[r].(ingredients := {}, tags := {})])
  }

  /** `RecipeCreateUpdateSerializer.update` on the recipe with id `r`
      (404 when there is none): clear both link sets, take the ingredient
      list and then the tags from the raw body (a missing key raises after
      the clearing), set the tags, run `add_ingredient`, then overwrite the
      scalar fields. */
  function UpdateRecipe(db: Db, r: RecipeId, input: RecipeInput): (out: Step)
    requires PoolOk(db)
  {
    if r !in db.recipes then Step(NotFound, db)
    else
      match Validate(db, input)
      case Failure(reply) => Step(reply, db)
      case Success(image) =>
        if !RawKeys(input) then Step(Crash(MissingKey), Unlinked(db, r))
        else
          var linked := AddIngredientToRecipe(SetTags(Unlinked(db, r), r, input.tags.value), input.ingredients, r);
          if linked.reply != Ok then linked
          else
            var saved := linked.db.recipes[r].(name := input.name, image := image, text := input.text,
                                                cookingTime := input.cookingTime);
            Step(Ok, linked.db.(recipes := linked.db.recipes[r := saved]))
  }

  /** Every amount of the list fits the IngredientRecipe column. The
      serializer's `amount` field sets a minimum only. */
  predicate AmountsFit(items: seq<IngredientInput>) {
    forall i | 0 <= i < |items| :: items[i].amount <= AmountMax
  }

  /** A list whose every item names a known ingredient with a non-negative
      amount can only stop at an amount past the column's range. */
  lemma {:induction false} AddIngredientOverflows(known: set<IngredientId>, b: Basket, items: seq<IngredientInput>)
    requires BasketOk(b)
    requires forall i | 0 <= i < |items| :: items[i].id in known && items[i].amount >= 0
    ensures AddIngredient(known, b, items).reply in {Ok, Crash(OutOfRange)}
    decreases |items|
  {
    if |items| > 0 {
      var first := LinkIngredient(known, b, items[0]);
      LinkIngredientOutcome(known, b, items[0]);
      LinkIngredientKeeps(known, b, items[0]);
      if first.reply == Ok {
        assert forall i | 0 <= i < |items[1..]| :: items[1..][i] == items[i + 1];
        AddIngredientOverflows(known, first.basket, items[1..]);
      }
    }
  }

  /** A validated body gets through `add_ingredient` exactly when its
      amounts fit the column, and otherwise stops with the database error.
      A recipe with no links that gets through ends up linked to exactly
      the pairs asked for. */
  lemma ValidatedItemsLink(db: Db, input: RecipeInput, r: RecipeId)
    requires r in db.recipes && PoolOk(db) && Validate(db, input).Success?
    requires db.recipes[r].ingredients == {}
    ensures var out := AddIngredientToRecipe(db, input.ingredients, r);
            && (out.reply == Ok <==> AmountsFit(input.ingredients))
            && (out.reply != Ok ==> out.reply == Crash(OutOfRange))
            && (out.reply == Ok ==>
                  && LinkedKeys(out.db, r) == InputKeys(input.ingredients)
                  && out.db.pool.Values == db.pool.Values + InputKeys(input.ingredients))
  {
    var b := BasketOf(db, r);
    AddIngredientSucceeds(db.ingredients.Keys, b, input.ingredients);
    AddIngredientOverflows(db.ingredients.Keys, b, input.ingredients);
    if AmountsFit(input.ingredients) {
      AddIngredientLinks(db.ingredients.Keys, b, input.ingredients);
      AddIngredientPool(db.ingredients.Keys, b, input.ingredients);
      assert Keys(b) == {};
    }
  }

  /** Create: on a valid JSON body with tags whose amounts fit the column,
      the new recipe takes the next id, is written by the requesting user
      at time `now`, and carries the body's name, image, text, cooking
      time, tags and ingredient pairs; nothing else but the pool changes.
      An invalid body writes nothing. A form body, such as any upload, or a
      body without `tags` leaves the bare recipe behind, and one with an
      amount past the column's range leaves the recipe with its tags and
      the links made before that item. */
  lemma CreateRecipeContents(db: Db, author: UserId, input: RecipeInput, now: nat)
    requires PoolOk(db) && db.nextRecipe !in db.recipes
    ensures var out := CreateRecipe(db, author, input, now);
            var id := db.nextRecipe;
            && (out.reply == Created <==>
                  Validate(db, input).Success? && RawKeys(input) && AmountsFit(input.ingredients))
            && (Validate(db, input).Failure? ==> out == Step(Validate(db, input).reply, db))
            && (Validate(db, input).Success? && !RawKeys(input) ==>
                  && out.reply == Crash(MissingKey)
                  && out.db == db.(recipes := db.recipes[id := Recipe(author, input.name, Validate(db, input).value,
                                                                      input.text, input.cookingTime, now, {}, {})],
                                   nextRecipe := id + 1))
            && (Validate(db, input).Success? && RawKeys(input) && !AmountsFit(input.ingredients) ==>
                  && out.reply == Crash(OutOfRange)
                  && id in out.db.recipes
                  && out.db.recipes[id].tags == Elements(input.tags.value))
            && (Validate(db, input).Success? ==>
                  && out.db.(pool := db.pool, nextRow := db.nextRow, recipes := db.recipes, nextRecipe := db.nextRecipe) == db
                  && out.db.nextRecipe == id + 1
                  && out.db.recipes.Keys == db.recipes.Keys + {id}
                  && (forall x | x in db.recipes :: out.db.recipes[x] == db.recipes[x]))
            && (out.reply == Created ==>
                  && out.db.recipes[id] == Recipe(author, input.name, Validate(db, input).value, input.text,
                                                  input.cookingTime, now, out.db.recipes[id].ingredients,
                                                  Elements(input.tags.value))
                  && LinkedKeys(out.db, id) == InputKeys(input.ingredients))
  {
    if Validate(db, input).Success? && RawKeys(input) {
      CreateRecipeLinks(db, author, input, now);
    }
  }

  /** The part of create after the raw keys were read. */
  lemma CreateRecipeLinks(db: Db, author: UserId, input: RecipeInput, now: nat)
    requires PoolOk(db) && db.nextRecipe !in db.recipes
    requires Validate(db, input).Success? && RawKeys(input)
    ensures var out := CreateRecipe(db, author, input, now);
            var id := db.nextRecipe;
            && (out.reply == Created <==> AmountsFit(input.ingredients))
            && (!AmountsFit(input.ingredients) ==>
                  && out.reply == Crash(OutOfRange)
                  && id in out.db.recipes
                  && out.db.recipes[id].tags == Elements(input.tags.value))
            && out.db.(pool := db.pool, nextRow := db.nextRow, recipes := db.recipes, nextRecipe := db.nextRecipe) == db
            && out.db.nextRecipe == id + 1
            && out.db.recipes.Keys == db.recipes.Keys + {id}
            && (forall x | x in db.recipes :: out.db.recipes[x] == db.recipes[x])
            && (out.reply == Created ==>
                  && out.db.recipes[id] == Recipe(author, input.name, Validate(db, input).value, input.text,
                                                  input.cookingTime, now, out.db.recipes[id].ingredients,
                                                  Elements(input.tags.value))
                  && LinkedKeys(out.db, id) == InputKeys(input.ingredients))
  {
    var id := db.nextRecipe;
    var image := Validate(db, input).value;
    var recipe := Recipe(author, input.name, image, input.text, input.cookingTime, now, {}, {});
    var created := db.(recipes := db.recipes[id := recipe], nextRecipe := id + 1);
    var tagged := SetTags(created, id, input.tags.value);
    assert PoolOk(tagged);
    assert Validate(tagged, input).Success?;
    ValidatedItemsLink(tagged, input, id);
  }

  /** Update: on a valid JSON body with tags whose amounts fit the column,
      the recipe ends with exactly the given tags, exactly the given
      ingredient pairs and the given scalar fields, whatever it had before,
      and keeps its author and creation time; the pool then holds every
      pair asked for, and nothing else but the pool changes. An unknown id
      or an invalid body writes nothing. A form body, such as any upload,
      or a body without `tags` leaves the recipe with no tags and no
      ingredients; one with an amount past the column's
      range leaves it with its new tags, the links made before that item and
      its old scalar fields. */
  lemma UpdateRecipeContents(db: Db, r: RecipeId, input: RecipeInput)
    requires PoolOk(db)
    ensures var out := UpdateRecipe(db, r, input);
            && (out.reply == Ok <==>
                  r in db.recipes && Validate(db, input).Success? && RawKeys(input) && AmountsFit(input.ingredients))
            && (r !in db.recipes ==> out == Step(NotFound, db))
            && (r in db.recipes && Validate(db, input).Failure? ==> out == Step(Validate(db, input).reply, db))
            && (r in db.recipes && Validate(db, input).Success? && !RawKeys(input) ==>
                  && out.reply == Crash(MissingKey)
                  && out.db == db.(recipes := db.recipes[r := db.recipes[r].(ingredients := {}, tags := {})]))
            && (r in db.recipes && Validate(db, input).Success? && RawKeys(input) && !AmountsFit(input.ingredients) ==>
                  && out.reply == Crash(OutOfRange)
                  && r in out.db.recipes
                  && out.db.recipes[r] == db.recipes[r].(tags := Elements(input.tags.value),
                                                         ingredients := out.db.recipes[r].ingredients))
            && (out.db.(pool := db.pool, nextRow := db.nextRow, recipes := db.recipes) == db)
            && (r in db.recipes ==>
                  && out.db.recipes.Keys == db.recipes.Keys
                  && (forall x | x in db.recipes && x != r :: out.db.recipes[x] == db.recipes[x]))
            && (out.reply == Ok ==>
                  && LinkedKeys(out.db, r) == InputKeys(input.ingredients)
                  && InputKeys(input.ingredients) <= out.db.pool.Values
                  && out.db.recipes[r] == db.recipes[r].(name := input.name, image := Validate(db, input).value,
                       text := input.text, cookingTime := input.cookingTime, tags := Elements(input.tags.value),
                       ingredients := out.db.recipes[r].ingredients))
  {
    if r in db.recipes && Validate(db, input).Success? && RawKeys(input) {
      UpdateRecipeLinks(db, r, input);
    }
  }

  /** The part of update after the raw keys were read. */
  lemma UpdateRecipeLinks(db: Db, r: RecipeId, input: RecipeInput)
    requires PoolOk(db) && r in db.recipes && Validate(db, input).Success? && RawKeys(input)
    ensures var out := UpdateRecipe(db, r, input);
            && (out.reply == Ok <==> AmountsFit(input.ingredients))
            && (!AmountsFit(input.ingredients) ==>
                  && out.reply == Crash(OutOfRange)
                  && r in out.db.recipes
                  && out.db.recipes[r] == db.recipes[r].(tags := Elements(input.tags.value),
                                                         ingredients := out.db.recipes[r].ingredients))
            && out.db.(pool := db.pool, nextRow := db.nextRow, recipes := db.recipes) == db
            && out.db.recipes.Keys == db.recipes.Keys
            && (forall x | x in db.recipes && x != r :: out.db.recipes[x] == db.recipes[x])
            && (out.reply == Ok ==>
                  && LinkedKeys(out.db, r) == InputKeys(input.ingredients)
                  && InputKeys(input.ingredients) <= out.db.pool.Values
                  && out.db.recipes[r] == db.recipes[r].(name := input.name, image := Validate(db, input).value,
                       text := input.text, cookingTime := input.cookingTime, tags := Elements(input.tags.value),
                       ingredients := out.db.recipes[r].ingredients))
  {
    var tagged := SetTags(Unlinked(db, r), r, input.tags.value);
    assert PoolOk(tagged);
    assert Validate(tagged, input).Success?;
    ValidatedItemsLink(tagged, input, r);
  }

  /** Sending the same update twice leaves the database as the first one
      left it: the second run finds every pool row and links the same ones. */
  lemma UpdateRecipeIdempotent(db: Db, r: RecipeId, input: RecipeInput)
    requires PoolOk(db)
    requires UpdateRecipe(db, r, input).reply == Ok
    ensures PoolOk(UpdateRecipe(db, r, input).db)
    ensures var once := UpdateRecipe(db, r, input).db;
            UpdateRecipe(once, r, input) == Step(Ok, once)
  {
    UpdateRecipeContents(db, r, input);
    var once := UpdateRecipe(db, r, input).db;
    assert PoolOk(once);
    assert Validate(once, input) == Validate(db, input);
    UpdateSettled(once, r, input);
  }

  /** An update whose every effect is already in place changes nothing. */
  lemma UpdateSettled(db: Db, r: RecipeId, input: RecipeInput)
    requires PoolOk(db) && r in db.recipes && Validate(db, input).Success? && RawKeys(input)
    requires InputKeys(input.ingredients) <= db.pool.Values
    requires LinkedKeys(db, r) == InputKeys(input.ingredients)
    requires db.recipes[r] == db.recipes[r].(name := input.name, image := Validate(db, input).value,
               text := input.text, cookingTime := input.cookingTime, tags := Elements(input.tags.value))
    ensures UpdateRecipe(db, r, input) == Step(Ok, db)
  {
    var tagged := SetTags(Unlinked(db, r), r, input.tags.value);
    assert PoolOk(tagged);
    PooledAmountsFit(db.pool, input.ingredients);
    RelinkSettled(db, tagged, r, input.ingredients);
  }

  /** Pairs the pool already carries fit the column. */
  lemma PooledAmountsFit(pool: map<RowId, PoolRow>, items: seq<IngredientInput>)
    requires PoolBounded(pool) && InputKeys(items) <= pool.Values
    requires forall i | 0 <= i < |items| :: items[i].amount >= 0
    ensures AmountsFit(items)
  {
    forall i | 0 <= i < |items|
      ensures items[i].amount <= AmountMax
    {
      assert Key(items[i]) in InputKeys(items);
      var id :| id in pool && pool[id] == Key(items[i]);
    }
  }

  /** Relinking a recipe, cleared of its links, to pairs the pool carries
      and the recipe had before gives back the links it had, and writes no
      pool row. */
  lemma RelinkSettled(db: Db, cleared: Db, r: RecipeId, items: seq<IngredientInput>)
    requires PoolOk(db) && PoolOk(cleared) && r in db.recipes && r in cleared.recipes
    requires cleared.pool == db.pool && cleared.nextRow == db.nextRow && cleared.ingredients == db.ingredients
    requires cleared.recipes[r].ingredients == {}
    requires ItemsLinkable(db.ingredients.Keys, items)
    requires InputKeys(items) <= db.pool.Values
    requires LinkedKeys(db, r) == InputKeys(items)
    ensures var linked := AddIngredientToRecipe(cleared, items, r);
            && linked.reply == Ok
            && linked.db.pool == db.pool && linked.db.nextRow == db.nextRow
            && linked.db.recipes[r].ingredients == db.recipes[r].ingredients
  {
    var b := BasketOf(cleared, r);
    AddIngredientSucceeds(db.ingredients.Keys, b, items);
    AddIngredientLinks(db.ingredients.Keys, b, items);
    AddIngredientReuses(db.ingredients.Keys, b, items);
    var linked := AddIngredientToRecipe(cleared, items, r);
    assert Keys(b) == {};
    SameKeysSameLinks(db.pool, linked.db.recipes[r].ingredients, db.recipes[r].ingredients);
  }

  // ------------------------------------------------------------ flags

  /** `get_is_favorited` / `get_is_in_shopping_cart` of
      RecipeCreateUpdateSerializer: false without a request or for an
      anonymous user, otherwise whether the pair is in the table. */
  function InRelation(db: Db, rel: Relation, ctx: RequestContext, r: RecipeId): bool {
    ctx.Request? && ctx.user.Member? && Has(TableOf(db, rel), Link(ctx.user.id, r))
  }

  /** The same flags in GetRecipeSerializer, which reads
      `context.get('request').user` without checking for a missing request. */
  function ReadInRelation(db: Db, rel: Relation, ctx: RequestContext, r: RecipeId): (b: Result<bool>)
    ensures ctx.NoRequest? <==> b.Failure?
  {
    if ctx.NoRequest? then Failure(Crash(MissingRequest))
    else Success(ctx.user.Member? && Has(TableOf(db, rel), Link(ctx.user.id, r)))
  }

  /** With a request present, both serializers answer alike; an anonymous
      user never sees a flag set. */
  lemma FlagsAgree(db: Db, rel: Relation, ctx: RequestContext, r: RecipeId)
    ensures ctx.Request? ==> ReadInRelation(db, rel, ctx, r) == Success(InRelation(db, rel, ctx, r))
    ensures ctx.NoRequest? || ctx.user.Anonymous? ==> !InRelation(db, rel, ctx, r)
  {
  }
}
