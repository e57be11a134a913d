/** The three pair tables of the schema: Favorite (user, recipe),
    ShoppingCart (user, recipe) and Subscribe (user, following). Each is a
    set of rows under an auto-increment primary key, and each carries a
    UniqueConstraint over its pair. The add/remove toggle the views run on
    them is defined here once.
 */
module Tables {
  import opened Replies

  /** A row's pair: the acting user and the recipe or user it points at. */
  datatype Link = Link(user: nat, target: nat)

  /** Rows by primary key, and the id the next insert receives. */
  datatype Table = Table(rows: map<nat, Link>, next: nat)

  /** Some row carries the pair: `filter(user=…, target=…).exists()`. */
  predicate Has(t: Table, l: Link) {
    exists id | id in t.rows :: t.rows[id] == l
  }

  /** The UniqueConstraint: no two rows carry the same pair. */
  predicate Unique(t: Table) {
    forall a, b | a in t.rows && b in t.rows && a != b :: t.rows[a] != t.rows[b]
  }

  /** Every row id was handed out by the counter. */
  predicate Fresh(t: Table) {
    forall id | id in t.rows :: id < t.next
  }

  predicate WellFormed(t: Table) {
    Unique(t) && Fresh(t)
  }

  /** `objects.create(...)` as the storage runs it before any constraint is
      checked: a new row under the next id. */
  function Insert(t: Table, l: Link): (r: Table)
    requires Fresh(t)
    ensures Fresh(r) && Has(r, l)
    ensures forall m | m != l :: Has(r, m) == Has(t, m)
    ensures t.next !in t.rows && r.rows == t.rows[t.next := l]
  {
    var r := Table(t.rows[t.next := l], t.next + 1);
    InsertHas(t, l, r);
    r
  }

  lemma InsertHas(t: Table, l: Link, r: Table)
    requires Fresh(t) && r == Table(t.rows[t.next := l], t.next + 1)
    ensures Has(r, l)
    ensures forall m | m != l :: Has(r, m) == Has(t, m)
  {
    assert r.rows[t.next] == l;
    forall m | m != l
      ensures Has(r, m) == Has(t, m)
    {
      if Has(t, m) {
        var id :| id in t.rows && t.rows[id] == m;
        assert r.rows[id] == m;
      }
      if Has(r, m) {
        var id :| id in r.rows && r.rows[id] == m;
        assert t.rows[id] == m;
      }
    }
  }

  /** Keeps the rows whose pair passes `keep`: what an ON DELETE CASCADE
      leaves of the table. */
  function Retain(t: Table, keep: Link -> bool): (r: Table)
    ensures forall m :: Has(r, m) <==> Has(t, m) && keep(m)
    ensures r.next == t.next && r.rows.Keys <= t.rows.Keys
    ensures forall id | id in r.rows :: r.rows[id] == t.rows[id] && keep(r.rows[id])
    ensures forall id | id in t.rows && keep(t.rows[id]) :: id in r.rows
    ensures WellFormed(t) ==> WellFormed(r)
  {
    var r := Table(map id | id in t.rows && keep(t.rows[id]) :: t.rows[id], t.next);
    RetainHas(t, keep, r);
    r
  }

  lemma RetainHas(t: Table, keep: Link -> bool, r: Table)
    requires r.next == t.next
    requires forall id :: id in r.rows <==> id in t.rows && keep(t.rows[id])
    requires forall id | id in r.rows :: r.rows[id] == t.rows[id]
    ensures forall m :: Has(r, m) <==> Has(t, m) && keep(m)
  {
    forall m
      ensures Has(r, m) <==> Has(t, m) && keep(m)
    {
      if Has(t, m) && keep(m) {
        var id :| id in t.rows && t.rows[id] == m;
        assert id in r.rows;
      }
      if Has(r, m) {
        var id :| id in r.rows && r.rows[id] == m;
        assert t.rows[id] == m;
      }
    }
  }

  /** `filter(user=…, target=…).delete()`: every row with the pair goes. */
  function Purge(t: Table, l: Link): (r: Table)
    ensures !Has(r, l)
    ensures forall m | m != l :: Has(r, m) == Has(t, m)
    ensures r.next == t.next && r.rows.Keys <= t.rows.Keys
    ensures forall id | id in r.rows :: r.rows[id] == t.rows[id]
    ensures forall id | id in t.rows && t.rows[id] != l :: id in r.rows
    ensures WellFormed(t) ==> WellFormed(r)
  {
    Retain(t, m => m != l)
  }

  /** The POST branch shared by the favorite, shopping-cart and subscribe
      actions: a missing target is a 404; otherwise the pair is inserted,
      and the UniqueConstraint refuses a pair that is already there. */
  function Add(t: Table, targetExists: bool, l: Link): (out: (Reply, Table))
    requires Fresh(t)
    ensures out.0 == NotFound <==> !targetExists
    ensures out.0 == Integrity <==> targetExists && Has(t, l)
    ensures out.0 == Created <==> targetExists && !Has(t, l)
    ensures out.0 != Created ==> out.1 == t
    ensures out.0 == Created ==> Has(out.1, l) && forall m | m != l :: Has(out.1, m) == Has(t, m)
    ensures Fresh(out.1) && (Unique(t) ==> Unique(out.1))
  {
    if !targetExists then (NotFound, t)
    else if Has(t, l) then (Integrity, t)
    else (Created, Insert(t, l))
  }

  /** The DELETE branch: the pair is removed with a 204 when present, and a
      400 answers a pair that is absent. */
  function Delete(t: Table, l: Link): (out: (Reply, Table))
    ensures out.0 == NoContent <==> Has(t, l)
    ensures out.0 != NoContent ==> out == (BadRequest, t)
    ensures !Has(out.1, l) && forall m | m != l :: Has(out.1, m) == Has(t, m)
    ensures WellFormed(t) ==> WellFormed(out.1)
  {
    if Has(t, l) then (NoContent, Purge(t, l)) else (BadRequest, t)
  }

  /** Adding an absent pair and deleting it again gives back exactly the
      rows there were; a second delete is refused. */
  lemma AddThenDelete(t: Table, l: Link)
    requires Fresh(t) && !Has(t, l)
    ensures var added := Add(t, true, l);
            var removed := Delete(added.1, l);
            added.0 == Created && removed.0 == NoContent
            && removed.1.rows == t.rows
            && Delete(removed.1, l) == (BadRequest, removed.1)
  {
    var added := Add(t, true, l);
    var removed := Delete(added.1, l);
    assert removed.1.rows == t.rows by {
      forall id
        ensures id in removed.1.rows <==> id in t.rows
      {
        if id in t.rows {
          assert t.rows[id] != l;
        }
      }
    }
  }

  /** Deleting a present pair and posting it again restores the same pairs
      (under a new row id). */
  lemma DeleteThenAdd(t: Table, l: Link)
    requires WellFormed(t) && Has(t, l)
    ensures var removed := Delete(t, l);
            var added := Add(removed.1, true, l);
            removed.0 == NoContent && added.0 == Created
            && forall m :: Has(added.1, m) == Has(t, m)
  {
  }

  /** A pair is created at most once: the second POST is refused and leaves
      the table as the first one left it. */
  lemma AddTwice(t: Table, l: Link)
    requires Fresh(t)
    ensures var first := Add(t, true, l);
            first.0 != NotFound && Add(first.1, true, l) == (Integrity, first.1)
  {
  }

  /** Without the UniqueConstraint, a second insert of a present pair would
      leave two rows carrying it. */
  lemma InsertDuplicates(t: Table, l: Link)
    requires Fresh(t) && Has(t, l)
    ensures !Unique(Insert(t, l))
  {
    var id :| id in t.rows && t.rows[id] == l;
    var r := Insert(t, l);
    assert id != t.next && r.rows[id] == r.rows[t.next];
  }
}
