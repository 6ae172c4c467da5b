/** What the game, carousel, card and nav-link routers share: a table of
    rows carrying an id, a `sort_order` and an `is_active` flag; a public list
    of the active rows and an `/all` list of every row, both ascending by
    `sort_order`; update and delete by id. `F` is the rest of a table's
    columns. */
module OrderedTable {
  import opened Common
  import opened Sorting
  import opened Query

  datatype Row<F> = Row(id: nat, sortOrder: int, isActive: bool, fields: F)

  function SortKey<F>(r: Row<F>): int { r.sortOrder }

  predicate Active<F>(r: Row<F>) { r.isActive }

  function IdOf<F>(r: Row<F>): int { r.id }

  /** The filter `eq('id', id)`. */
  function HasId<F(!new)>(id: nat): Row<F> -> bool {
    KeyIs(IdOf<F>, id)
  }

  /** The store gives every row its own id. */
  ghost predicate UniqueIds<F>(t: seq<Row<F>>) {
    UniqueBy(t, IdOf<F>)
  }

  /** `GET /`: `eq('is_active', true)` then `order('sort_order')`. */
  function ListActive<F(==,!new)>(t: seq<Row<F>>): (r: seq<Row<F>>)
    ensures SortedBy(r, SortKey<F>)
    ensures forall x :: multiset(r)[x] == if x.isActive then multiset(t)[x] else 0
  {
    SortBy(Select(t, Active<F>), SortKey<F>)
  }

  /** `GET /all`: every row, `order('sort_order')`, no filter. */
  function ListAll<F(==,!new)>(t: seq<Row<F>>): (r: seq<Row<F>>)
    ensures SortedBy(r, SortKey<F>)
    ensures multiset(r) == multiset(t)
  {
    SortBy(t, SortKey<F>)
  }

  /** An id that no row of `t` has; the store's choice of id is not modelled. */
  function FreshId<F>(t: seq<Row<F>>): (n: nat)
    ensures forall x :: x in t ==> x.id < n
  {
    FreshKey(t, (x: Row<F>) => x.id)
  }

  /** The row an update writes: `sort_order` and `is_active` when the body
      gives them, the table's other columns as `patch` says, the id never. */
  function Patch<F>(r: Row<F>, sortOrder: Option<int>, isActive: Option<bool>, patch: F -> F): Row<F> {
    Row(r.id, Keep(r.sortOrder, sortOrder), Keep(r.isActive, isActive), patch(r.fields))
  }

  /** `update(...).eq('id', id)`: every row with that id is patched. */
  function UpdateRows<F>(t: seq<Row<F>>, id: nat, sortOrder: Option<int>, isActive: Option<bool>, patch: F -> F)
    : (r: seq<Row<F>>)
    ensures |r| == |t|
    ensures forall i :: 0 <= i < |t| ==> r[i].id == t[i].id
    ensures forall i :: 0 <= i < |t| && t[i].id != id ==> r[i] == t[i]
    ensures forall i :: 0 <= i < |t| && t[i].id == id ==> r[i] == Patch(t[i], sortOrder, isActive, patch)
  {
    seq(|t|, i requires 0 <= i < |t| => if t[i].id == id then Patch(t[i], sortOrder, isActive, patch) else t[i])
  }

  datatype Outcome<F> = Outcome(table: seq<Row<F>>, reply: Reply<Row<F>>)

  /** `PUT /:id`: the update, then `.select().single()`, which fails (500 with
      `failure`) unless exactly one row has the id. */
  function Update<F(==,!new)>(t: seq<Row<F>>, id: nat, sortOrder: Option<int>, isActive: Option<bool>,
                             patch: F -> F, failure: string): (o: Outcome<F>)
    ensures o.table == UpdateRows(t, id, sortOrder, isActive, patch)
    ensures o.reply.Ok? || o.reply == Fail(500, failure)
    ensures o.reply.Ok? ==> o.reply.status == 200 && o.reply.value in o.table && o.reply.value.id == id
    ensures o.reply.Ok? <==> Count(t, HasId(id)) == 1
  {
    var t' := UpdateRows(t, id, sortOrder, isActive, patch);
    CountPointwise(t', t, HasId(id), HasId(id));
    match Single(t', HasId(id))
    case Some(row) => assert IdOf(row) == id; Outcome(t', Ok(200, row))
    case None => Outcome(t', Fail(500, failure))
  }

  /** `DELETE /:id`: the rows with that id go, the others stay in order. */
  function Delete<F(==,!new)>(t: seq<Row<F>>, id: nat): (r: seq<Row<F>>)
    ensures forall x :: multiset(r)[x] == if x.id == id then 0 else multiset(t)[x]
    ensures forall x :: x in r <==> x in t && x.id != id
  {
    Select(t, (x: Row<F>) => x.id != id)
  }

  /** The row with a given id, when there is exactly one. */
  function Lookup<F(==,!new)>(t: seq<Row<F>>, id: nat): Option<Row<F>> {
    Single(t, HasId(id))
  }

  /** Under unique ids, lookup finds a row exactly when one has the id. */
  lemma LookupFinds<F(!new)>(t: seq<Row<F>>, id: nat)
    requires UniqueIds(t)
    ensures Lookup(t, id).Some? <==> exists x :: x in t && x.id == id
    ensures forall x :: x in t && x.id == id ==> Lookup(t, id) == Some(x)
  {
    FindByKey(t, IdOf<F>, id);
  }

  /** The public list is the `/all` list without the inactive rows. */
  lemma ActiveListIsAllListFiltered<F(!new)>(t: seq<Row<F>>)
    ensures forall x :: x in ListActive(t) <==> x in ListAll(t) && x.isActive
    ensures |ListActive(t)| <= |ListAll(t)|
  {
    assert forall x :: x in ListActive(t) <==> multiset(ListActive(t))[x] > 0;
    assert forall x :: x in ListAll(t) <==> multiset(ListAll(t))[x] > 0;
    assert |ListActive(t)| == |Select(t, Active<F>)|;
  }

  /** A row appended under a fresh id keeps ids unique, shows in `/all`,
      and shows in the public list exactly when it is active. */
  lemma CreatedRowIsListed<F(!new)>(t: seq<Row<F>>, row: Row<F>)
    requires UniqueIds(t)
    requires forall x :: x in t ==> x.id != row.id
    ensures UniqueIds(t + [row])
    ensures row in ListAll(t + [row])
    ensures row in ListActive(t + [row]) <==> row.isActive
    ensures Lookup(t + [row], row.id) == Some(row)
  {
    var t' := t + [row];
    assert UniqueIds(t') by {
      assert forall i :: 0 <= i < |t| ==> t[i] in t;
      UniqueSnoc(t, row, IdOf<F>);
    }
    assert row in t';
    ListedIffPresent(t', row);
    LookupFinds(t', row.id);
  }

  /** A row of the table is in `/all`, and in the public list exactly when
      it is active. */
  lemma ListedIffPresent<F(!new)>(t: seq<Row<F>>, row: Row<F>)
    requires row in t
    ensures row in ListAll(t)
    ensures row in ListActive(t) <==> row.isActive
  {
    assert multiset(t)[row] > 0;
    assert multiset(ListAll(t))[row] > 0;
    assert row in ListActive(t) <==> multiset(ListActive(t))[row] > 0;
  }

  /** `insert(...).select().single()`: the new row under an id no row has,
      with `sort_order || 0`, appended to the table. */
  function Insert<F>(t: seq<Row<F>>, sortOrder: Option<int>, isActive: bool, fields: F)
    : (o: (seq<Row<F>>, Row<F>))
    ensures o.0 == t + [o.1]
    ensures forall x :: x in t ==> x.id != o.1.id
    ensures sortOrder.Some? ==> o.1.sortOrder == sortOrder.value
    ensures sortOrder.None? ==> o.1.sortOrder == 0
    ensures o.1.isActive == isActive && o.1.fields == fields
  {
    var row := Row(FreshId(t), OrZero(sortOrder), isActive, fields);
    (t + [row], row)
  }

  /** An inserted row keeps ids unique, is found under its id, is in `/all`,
      and is in the public list exactly when it is active. */
  lemma InsertListed<F(!new)>(t: seq<Row<F>>, sortOrder: Option<int>, isActive: bool, fields: F)
    requires UniqueIds(t)
    ensures var (t', row) := Insert(t, sortOrder, isActive, fields);
      && UniqueIds(t') && Lookup(t', row.id) == Some(row)
      && row in ListAll(t') && (row in ListActive(t') <==> isActive)
  {
    var (t', row) := Insert(t, sortOrder, isActive, fields);
    CreatedRowIsListed(t, row);
  }

  /** An update keeps the ids, so it keeps them unique. */
  lemma UpdateKeepsUniqueIds<F>(t: seq<Row<F>>, id: nat, sortOrder: Option<int>, isActive: Option<bool>, patch: F -> F)
    requires UniqueIds(t)
    ensures UniqueIds(UpdateRows(t, id, sortOrder, isActive, patch))
  {
  }

  /** Updating an existing row: the reply is the patched row, and a lookup
      then finds it. */
  lemma UpdateExisting<F(!new)>(t: seq<Row<F>>, id: nat, sortOrder: Option<int>, isActive: Option<bool>,
                              patch: F -> F, failure: string)
    requires UniqueIds(t)
    requires Lookup(t, id).Some?
    ensures var o := Update(t, id, sortOrder, isActive, patch, failure);
      var row := Patch(Lookup(t, id).value, sortOrder, isActive, patch);
      o.reply == Ok(200, row) && Lookup(o.table, id) == Some(row)
  {
    var t' := UpdateRows(t, id, sortOrder, isActive, patch);
    var row := Patch(Lookup(t, id).value, sortOrder, isActive, patch);
    assert Lookup(t', id) == Some(row) by {
      var before := Lookup(t, id).value;
      var k :| 0 <= k < |t| && t[k] == before;
      assert t'[k] == row;
      assert row in t' && row.id == id;
      UpdateKeepsUniqueIds(t, id, sortOrder, isActive, patch);
      LookupFinds(t', id);
    }
  }

  /** An update leaves what every other id finds as it was. */
  lemma UpdateKeepsOtherRows<F(!new)>(t: seq<Row<F>>, id: nat, sortOrder: Option<int>, isActive: Option<bool>,
                                    patch: F -> F, other: nat)
    requires UniqueIds(t)
    requires other != id
    ensures Lookup(UpdateRows(t, id, sortOrder, isActive, patch), other) == Lookup(t, other)
  {
    var t' := UpdateRows(t, id, sortOrder, isActive, patch);
    UpdateKeepsUniqueIds(t, id, sortOrder, isActive, patch);
    assert forall x :: x in t && x.id == other ==> x in t' by {
      forall x | x in t && x.id == other ensures x in t' {
        var j :| 0 <= j < |t| && t[j] == x;
        assert t'[j] == x;
      }
    }
    assert forall x :: x in t' && x.id == other ==> x in t by {
      forall x | x in t' && x.id == other ensures x in t {
        var j :| 0 <= j < |t'| && t'[j] == x;
        assert t[j] == x;
      }
    }
    LookupFinds(t, other);
    LookupFinds(t', other);
  }

  /** Updating an id that no row has answers 500 and changes nothing. */
  lemma UpdateMissing<F(!new)>(t: seq<Row<F>>, id: nat, sortOrder: Option<int>, isActive: Option<bool>,
                             patch: F -> F, failure: string)
    requires forall x :: x in t ==> x.id != id
    ensures Update(t, id, sortOrder, isActive, patch, failure) == Outcome(t, Fail(500, failure))
  {
    var t' := UpdateRows(t, id, sortOrder, isActive, patch);
    assert t' == t;
    CountBounds(t, HasId(id));
  }

  /** Deleting a row just appended under an id of its own gives back the
      table as it was. */
  lemma DeleteAppendedRow<F(!new)>(t: seq<Row<F>>, row: Row<F>)
    requires forall x :: x in t ==> x.id != row.id
    ensures Delete(t + [row], row.id) == t
  {
    var p := (x: Row<F>) => x.id != row.id;
    assert (t + [row])[..|t|] == t;
    SelectAll(t, p);
  }

  /** After a delete the id is gone and every other id finds what it did. */
  lemma DeleteThenLookup<F(!new)>(t: seq<Row<F>>, id: nat, other: nat)
    requires UniqueIds(t)
    requires other != id
    ensures UniqueIds(Delete(t, id))
    ensures Lookup(Delete(t, id), id).None?
    ensures Lookup(Delete(t, id), other) == Lookup(t, other)
  {
    var d := Delete(t, id);
    SelectKeepsUniqueBy(t, (x: Row<F>) => x.id != id, IdOf<F>);
    LookupFinds(d, id);
    LookupFinds(d, other);
    LookupFinds(t, other);
  }
}
