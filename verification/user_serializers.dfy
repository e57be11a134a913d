/** The user-side serializers: the Subscribe validators, the user creation
    validators, the `is_subscribed` flag and the recipes a subscription
    listing shows for a followed author.
 */
module UserSerializers {
  import opened Replies
  import opened Text
  import opened Seqs
  import opened Tables
  import opened Models

  // ------------------------------------------------------------ Subscribe

  /** `SubscribeSerializer.validate_following`: a user may not follow
      themselves. An anonymous requester equals no user. */
  function ValidateFollowing(requester: Principal, value: UserId): (r: Result<UserId>)
    ensures r.Failure? <==> requester == Member(value)
    ensures r.Failure? ==> r.reply == Invalid
    ensures r.Success? ==> r.value == value
  {
    if requester == Member(value) then Failure(Invalid) else Success(value)
  }

  /** The `UniqueTogetherValidator` on `(user, following)`: a pair already
      subscribed is refused. */
  function ValidateUnique(db: Db, data: Link): (r: Result<Link>)
    ensures r.Failure? <==> Has(db.subscriptions, data)
    ensures r.Failure? ==> r.reply == Invalid
    ensures r.Success? ==> r.value == data
  {
    if Has(db.subscriptions, data) then Failure(Invalid) else Success(data)
  }

  /** `SubscribeSerializer` validation of `{user, following}`: both fields
      are primary keys of existing users, then the field validator, then the
      serializer-wide validators. Every failure is a ValidationError. */
  function ValidateSubscribe(db: Db, requester: Principal, data: Link): (r: Result<Link>)
    ensures r.Success? <==>
              && data.user in db.users && data.target in db.users
              && requester != Member(data.target)
              && !Has(db.subscriptions, data)
    ensures r.Failure? ==> r.reply == Invalid
    ensures r.Success? ==> r.value == data
  {
    if data.user !in db.users || data.target !in db.users then Failure(Invalid)
    else match ValidateFollowing(requester, data.target)
      case Failure(reply) => Failure(reply)
      case Success(_) => ValidateUnique(db, data)
  }

  /** What passes validation can be inserted: the UniqueConstraint of the
      table will not refuse it. */
  lemma ValidatedInsertable(db: Db, requester: Principal, data: Link)
    requires Fresh(db.subscriptions)
    requires ValidateSubscribe(db, requester, data).Success?
    ensures Add(db.subscriptions, true, data).0 == Created
    ensures Has(Add(db.subscriptions, true, data).1, data)
  {
  }

  // -------------------------------------------------------- user creation

  /** `UsersCreateSerializer.validate_username` as written: it raises
      `ValidationError` for `"me"`, a name the module never imports, so the
      rejection surfaces as a NameError. */
  function ValidateUsernameAsWritten(value: string): (r: Result<string>)
    ensures r.Failure? <==> value == "me"
    ensures r.Failure? ==> r.reply == Crash(UnboundName)
    ensures r.Success? ==> r.value == value
  {
    if value == "me" then Failure(Crash(UnboundName)) else Success(value)
  }

  /** `validate_username` with the rejection it means: a ValidationError. */
  function ValidateUsername(value: string): (r: Result<string>)
    ensures r.Failure? <==> value == "me"
    ensures r.Failure? ==> r.reply == Invalid
    ensures r.Success? ==> r.value == value
  {
    if value == "me" then Failure(Invalid) else Success(value)
  }

  /** The two versions accept the same names and both refuse `"me"`, but
      only the intended one answers 400 rather than 500. */
  lemma ValidateUsernameDiscrepancy(value: string)
    ensures ValidateUsernameAsWritten(value).Success? == ValidateUsername(value).Success?
    ensures ValidateUsernameAsWritten("me") == Failure(Crash(UnboundName))
    ensures ValidateUsername("me") == Failure(Invalid)
  {
  }

  /** `validate_email`: the address, lowercased. */
  function ValidateEmail(value: string): (r: string)
    ensures |r| == |value|
    ensures forall i | 0 <= i < |r| :: !('A' <= r[i] <= 'Z')
    ensures forall i | 0 <= i < |r| ::
              r[i] == value[i] || ('A' <= value[i] <= 'Z' && r[i] as int == value[i] as int + 32)
  {
    Lower(value)
  }

  /** Validating an address that has been validated changes nothing. */
  lemma ValidateEmailIdempotent(value: string)
    ensures ValidateEmail(ValidateEmail(value)) == ValidateEmail(value)
  {
    LowerIdempotent(value);
  }

  /** An address without capital letters is kept as it is. */
  lemma {:induction false} ValidateEmailKeepsLower(value: string)
    requires forall i | 0 <= i < |value| :: !('A' <= value[i] <= 'Z')
    ensures ValidateEmail(value) == value
  {
    var r := ValidateEmail(value);
    forall i | 0 <= i < |value|
      ensures r[i] == value[i]
    {
      assert r[i] == LowerChar(value[i]);
    }
  }

  // ------------------------------------------------------- read-side data

  /** `CustomUserSerializer.get_is_subscribed`. */
  function IsSubscribed(db: Db, ctx: RequestContext, obj: UserId): (b: bool)
    ensures ctx.NoRequest? || ctx.user.Anonymous? ==> !b
    ensures ctx.Request? && ctx.user.Member? ==> (b <==> Has(db.subscriptions, Link(ctx.user.id, obj)))
  {
    match ctx
    case NoRequest => false
    case Request(Anonymous) => false
    case Request(Member(u)) => Has(db.subscriptions, Link(u, obj))
  }

  /** Deleting a user cascades to the Subscribe rows on both sides: nobody
      is subscribed to them any more, and they are subscribed to nobody. */
  lemma DeleteUserUnsubscribes(db: Db, u: UserId, v: UserId)
    ensures !IsSubscribed(DeleteUser(db, u), Request(Member(v)), u)
    ensures !IsSubscribed(DeleteUser(db, u), Request(Member(u)), v)
    ensures v != u ==> forall w | w != u ::
              IsSubscribed(DeleteUser(db, u), Request(Member(v)), w) == IsSubscribed(db, Request(Member(v)), w)
  {
  }

  /** The `recipe_limit` query parameter of the request in the serializer
      context. */
  datatype Limit =
    | Unrequested          // no request in the context
    | Absent               // the request has no `recipe_limit`
    | Given(text: string)  // the raw text of `recipe_limit`

  /** `FollowSerializer.get_recipes`: the author's recipes, newest first,
      cut to `recipe_limit` when one is given and not empty. The text goes
      through `int()`, and a negative slice bound is refused by the
      queryset. */
  function GetRecipes(db: Db, limit: Limit, obj: UserId): (r: Result<seq<RecipeId>>)
    ensures r.Failure? <==>
              || limit.Unrequested?
              || (limit.Given? && limit.text != "" &&
                  (ParseInt(limit.text).None? || ParseInt(limit.text).value < 0))
    ensures r.Failure? ==>
              r.reply == (if limit.Unrequested? then Crash(MissingRequest)
                          else if ParseInt(limit.text).None? then Crash(NotAnInteger)
                          else Crash(NegativeSlice))
    ensures r.Success? ==> r.value <= Authored(db, obj)
    ensures r.Success? && (limit.Absent? || limit == Given("")) ==> r.value == Authored(db, obj)
    ensures r.Success? && limit.Given? && limit.text != "" ==>
              |r.value| == if ParseInt(limit.text).value < |Authored(db, obj)|
                           then ParseInt(limit.text).value else |Authored(db, obj)|
  {
    var all := Authored(db, obj);
    match limit
    case Unrequested => Failure(Crash(MissingRequest))
    case Absent => Success(all)
    case Given(text) =>
      if text == "" then Success(all)
      else match ParseInt(text)
        case None => Failure(Crash(NotAnInteger))
        case Some(n) =>
          if n < 0 then Failure(Crash(NegativeSlice))
          else if n < |all| then Success(all[..n])
          else Success(all)
  }

  /** `get_recipes_count`: how many recipes the author wrote. */
  function GetRecipesCount(db: Db, obj: UserId): nat {
    |AuthoredSet(db, obj)|
  }

  /** The count is the length of the unlimited list, and bounds every
      limited one. */
  lemma GetRecipesCountMatches(db: Db, limit: Limit, obj: UserId)
    requires RecipesValid(db)
    ensures GetRecipes(db, Absent, obj) == Success(Authored(db, obj))
    ensures GetRecipesCount(db, obj) == |Authored(db, obj)|
    ensures GetRecipes(db, limit, obj).Success? ==> |GetRecipes(db, limit, obj).value| <= GetRecipesCount(db, obj)
  {
    AuthoredCount(db, obj);
  }

  /** A limit written as a decimal number `n` gives the first `n` recipes,
      or all of them when there are fewer. */
  lemma GetRecipesPrefix(db: Db, n: nat, obj: UserId)
    ensures var r := GetRecipes(db, Given(ShowNat(n)), obj);
            && r.Success?
            && (n <= |Authored(db, obj)| ==> r.value == Authored(db, obj)[..n])
            && (n >= |Authored(db, obj)| ==> r.value == Authored(db, obj))
  {
    ParseShowNat(n);
  }

  /** A negative limit is refused. */
  lemma GetRecipesNegative(db: Db, n: nat, obj: UserId)
    requires n > 0
    ensures GetRecipes(db, Given("-" + ShowNat(n)), obj) == Failure(Crash(NegativeSlice))
  {
    ParseShowNat(n);
  }

  /** A limit that is not a number to the modelled `int()` is refused: one
      holding a character that is neither an ASCII digit nor a leading sign
      followed by more text. */
  lemma GetRecipesNotANumber(db: Db, text: string, obj: UserId, i: nat)
    requires i < |text| && !IsDigit(text[i])
    requires i > 0 || |text| == 1 || (text[0] != '-' && text[0] != '+')
    ensures GetRecipes(db, Given(text), obj) == Failure(Crash(NotAnInteger))
  {
    assert !AllDigits(text);
    if i > 0 {
      assert text[1..][i - 1] == text[i];
    }
  }
}
