/** The `subscribe` action of the user viewset: POST follows a user, any
    other admitted method (DELETE) unfollows. The requester is an
    authenticated user id; authentication is outside the model.
 */
module UserViews {
  import opened Replies
  import opened Tables
  import opened Models
  import opened UserSerializers

  /** The POST branch as written: 404 for an unknown user, otherwise
      `Subscribe.objects.create(user=…, following=…)`. No serializer
      validation runs, so only the UniqueConstraint can refuse the pair. */
  function SubscribePost(db: Db, requester: UserId, id: UserId): (out: Step)
    requires Fresh(db.subscriptions)
    ensures out.reply in {NotFound, Integrity, Created}
    ensures out.reply == NotFound <==> id !in db.users
    ensures out.reply == Integrity <==> id in db.users && Has(db.subscriptions, Link(requester, id))
    ensures out.reply != Created ==> out.db == db
    ensures out.reply == Created ==>
              && Has(out.db.subscriptions, Link(requester, id))
              && forall l | l != Link(requester, id) :: Has(out.db.subscriptions, l) == Has(db.subscriptions, l)
    ensures out.db.(subscriptions := db.subscriptions) == db
    ensures Fresh(out.db.subscriptions)
  {
    var (reply, t) := Add(db.subscriptions, id in db.users, Link(requester, id));
    if reply == Created then Step(reply, db.(subscriptions := t)) else Step(reply, db)
  }

  /** The POST branch with the serializer's validation run before the
      insert: a self-follow and a repeated pair are ValidationErrors. */
  function SubscribePostValidated(db: Db, requester: UserId, id: UserId): (out: Step)
    requires Fresh(db.subscriptions)
    ensures out.reply in {NotFound, Invalid, Created}
    ensures out.reply == NotFound <==> id !in db.users
    ensures out.reply == Created <==>
              id in db.users && requester in db.users && requester != id
              && !Has(db.subscriptions, Link(requester, id))
    ensures out.reply != Created ==> out.db == db
    ensures forall l | Has(out.db.subscriptions, l) && !Has(db.subscriptions, l) :: l.user != l.target
    ensures out.db.(subscriptions := db.subscriptions) == db
  {
    if id !in db.users then Step(NotFound, db)
    else match ValidateSubscribe(db, Member(requester), Link(requester, id))
      case Failure(reply) => Step(reply, db)
      case Success(link) =>
        var (reply, t) := Add(db.subscriptions, true, link);
        Step(reply, db.(subscriptions := t))
  }

  /** The DELETE branch: 204 after removing the pair when it is there, 400
      when it is not. The followed id is not looked up. */
  function SubscribeDelete(db: Db, requester: UserId, id: UserId): (out: Step)
    ensures out.reply == NoContent <==> Has(db.subscriptions, Link(requester, id))
    ensures out.reply != NoContent ==> out == Step(BadRequest, db)
    ensures !Has(out.db.subscriptions, Link(requester, id))
    ensures forall l | l != Link(requester, id) :: Has(out.db.subscriptions, l) == Has(db.subscriptions, l)
    ensures out.db.(subscriptions := db.subscriptions) == db
  {
    var (reply, t) := Tables.Delete(db.subscriptions, Link(requester, id));
    Step(reply, db.(subscriptions := t))
  }

  /** `CustomUserViewSet.subscribe` as written: POST inserts the pair
      directly, any other method removes it. */
  function Subscribe(db: Db, m: Method, requester: UserId, id: UserId): (out: Step)
    requires Fresh(db.subscriptions)
    ensures m.Post? ==> out.reply in {NotFound, Integrity, Created}
    ensures m.Delete? ==> out.reply in {NoContent, BadRequest}
    ensures out.db.(subscriptions := db.subscriptions) == db
  {
    if m.Post? then SubscribePost(db, requester, id) else SubscribeDelete(db, requester, id)
  }

  /** The action with the serializer's validation run on POST, as
      `validate_following` and the UniqueTogetherValidator intend. */
  function SubscribeValidated(db: Db, m: Method, requester: UserId, id: UserId): (out: Step)
    requires Fresh(db.subscriptions)
    ensures m.Post? ==> out.reply in {NotFound, Invalid, Created}
    ensures m.Delete? ==> out.reply in {NoContent, BadRequest}
    ensures forall l | Has(out.db.subscriptions, l) && !Has(db.subscriptions, l) :: l.user != l.target
    ensures out.db.(subscriptions := db.subscriptions) == db
  {
    if m.Post? then SubscribePostValidated(db, requester, id) else SubscribeDelete(db, requester, id)
  }

  /** The discrepancy: an existing user can follow themselves through the
      action, which the serializer's `validate_following` would refuse. */
  lemma SubscribeSelfFollow(db: Db, u: UserId)
    requires Fresh(db.subscriptions) && u in db.users && !Has(db.subscriptions, Link(u, u))
    ensures SubscribePost(db, u, u).reply == Created
    ensures Has(SubscribePost(db, u, u).db.subscriptions, Link(u, u))
    ensures SubscribePostValidated(db, u, u) == Step(Invalid, db)
    ensures Subscribe(db, Post, u, u).reply == Created && SubscribeValidated(db, Post, u, u) == Step(Invalid, db)
  {
  }

  /** Apart from a self-follow, the two POST branches change the database
      alike; they differ only in how a repeated pair is refused. */
  lemma SubscribePostAgree(db: Db, requester: UserId, id: UserId)
    requires Fresh(db.subscriptions) && requester in db.users && requester != id
    ensures SubscribePostValidated(db, requester, id).db == SubscribePost(db, requester, id).db
    ensures var written := SubscribePost(db, requester, id).reply;
            SubscribePostValidated(db, requester, id).reply == (if written == Integrity then Invalid else written)
  {
  }

  /** Following and unfollowing an absent pair gives back the same rows; a
      second unfollow is refused. A user may be following themselves. */
  lemma SubscribeThenUnsubscribe(db: Db, requester: UserId, id: UserId)
    requires Fresh(db.subscriptions) && id in db.users
    requires !Has(db.subscriptions, Link(requester, id))
    ensures var followed := Subscribe(db, Post, requester, id);
            var unfollowed := Subscribe(followed.db, Delete, requester, id);
            && followed.reply == Created && unfollowed.reply == NoContent
            && unfollowed.db.subscriptions.rows == db.subscriptions.rows
            && unfollowed.db.(subscriptions := db.subscriptions) == db
            && Subscribe(unfollowed.db, Delete, requester, id) == Step(BadRequest, unfollowed.db)
  {
    AddThenDelete(db.subscriptions, Link(requester, id));
  }

  /** `is_subscribed` follows the action: set after a POST that reached an
      existing user (whether it created the row or hit the constraint),
      clear after any DELETE. */
  lemma IsSubscribedFollowsAction(db: Db, requester: UserId, id: UserId)
    requires Fresh(db.subscriptions)
    ensures var ctx := Request(Member(requester));
            var followed := Subscribe(db, Post, requester, id);
            && (followed.reply != NotFound <==> id in db.users)
            && (followed.reply != NotFound ==> IsSubscribed(followed.db, ctx, id))
            && (followed.reply == Integrity ==> IsSubscribed(db, ctx, id))
            && !IsSubscribed(Subscribe(db, Delete, requester, id).db, ctx, id)
  {
  }

  /** The action keeps the database valid when the requester exists; a
      self-follow it lets through breaks no declared constraint. */
  lemma SubscribeValid(db: Db, m: Method, requester: UserId, id: UserId)
    requires Valid(db) && requester in db.users
    ensures Fresh(db.subscriptions) && Valid(Subscribe(db, m, requester, id).db)
  {
    var t := db.subscriptions;
    var out := Subscribe(db, m, requester, id);
    if m.Post? && out.reply == Created {
      var t' := Insert(t, Link(requester, id));
      assert References(t', db.users.Keys, db.users.Keys) by {
        forall k | k in t'.rows
          ensures t'.rows[k].user in db.users.Keys && t'.rows[k].target in db.users.Keys
        {
          if k != t.next {
            assert t'.rows[k] == t.rows[k];
          }
        }
      }
    } else if m.Delete? && out.reply == NoContent {
      PurgeReferences(t, Link(requester, id), db.users.Keys);
    }
  }

  /** The validated action keeps the database valid, and adds no
      self-follow to it. */
  lemma SubscribeValidatedValid(db: Db, m: Method, requester: UserId, id: UserId)
    requires Valid(db)
    ensures Fresh(db.subscriptions) && Valid(SubscribeValidated(db, m, requester, id).db)
  {
    var t := db.subscriptions;
    var out := SubscribeValidated(db, m, requester, id);
    if m.Post? && out.reply == Created {
      var t' := Insert(t, Link(requester, id));
      assert References(t', db.users.Keys, db.users.Keys) by {
        forall k | k in t'.rows
          ensures t'.rows[k].user in db.users.Keys && t'.rows[k].target in db.users.Keys
        {
          if k != t.next {
            assert t'.rows[k] == t.rows[k];
          }
        }
      }
    } else if m.Delete? && out.reply == NoContent {
      PurgeReferences(t, Link(requester, id), db.users.Keys);
    }
  }

  /** What a DELETE leaves of the Subscribe table still points at users. */
  lemma PurgeReferences(t: Table, l: Link, users: set<UserId>)
    requires References(t, users, users)
    ensures References(Purge(t, l), users, users)
  {
    var t' := Purge(t, l);
    forall k | k in t'.rows
      ensures t'.rows[k].user in users && t'.rows[k].target in users
    {
      assert t'.rows[k] == t.rows[k];
    }
  }
}
