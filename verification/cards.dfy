/** The cards router (`action_cards`): the ordered table of portrait cards
    that trigger a site action. Listing is public; create, update and delete
    sit behind the admin token. */
module Cards {
  import opened Common
  import opened Query
  import opened OrderedTable

  datatype CardFields = CardFields(
    title: Option<string>, imageUrl: Option<string>, actionType: Option<string>, actionValue: Option<string>)

  type Card = Row<CardFields>

  /** The JSON body of `POST /` and `PUT /:id`; `None` is an absent field. */
  datatype CardBody = CardBody(
    title: Option<string>, imageUrl: Option<string>, actionType: Option<string>, actionValue: Option<string>,
    sortOrder: Option<int>, isActive: Option<bool>)

  const UpdateFailed: string := "更新卡片失败"

  /** `POST /`: `sort_order || 0`; `is_active` is not sent, whatever the
      body says, so the new card takes the column default `activeDefault`. */
  function CreateCard(t: seq<Card>, authed: bool, body: CardBody, activeDefault: bool): (o: (seq<Card>, Reply<Card>))
    ensures !authed ==> o == (t, Denied)
    ensures authed ==> o.1.Ok? && o.1.status == 201 && o.0 == t + [o.1.value]
    ensures authed ==> var c := o.1.value;
      && (forall x :: x in t ==> x.id != c.id)
      && c.isActive == activeDefault
      && c.sortOrder == (if body.sortOrder.Some? then body.sortOrder.value else 0)
      && c.fields == CardFields(body.title, body.imageUrl, body.actionType, body.actionValue)
  {
    if !authed then (t, Denied)
    else
      var (t', c) := Insert(t, body.sortOrder, activeDefault,
                            CardFields(body.title, body.imageUrl, body.actionType, body.actionValue));
      (t', Ok(201, c))
  }

  /** The columns `PUT /:id` writes besides `sort_order` and `is_active`:
      title, image, action type and action value, each only when given. */
  function MergeCard(f: CardFields, body: CardBody): (r: CardFields)
    ensures r.title == (if body.title.Some? then body.title else f.title)
    ensures r.imageUrl == (if body.imageUrl.Some? then body.imageUrl else f.imageUrl)
    ensures r.actionType == (if body.actionType.Some? then body.actionType else f.actionType)
    ensures r.actionValue == (if body.actionValue.Some? then body.actionValue else f.actionValue)
    ensures body == CardBody(None, None, None, None, body.sortOrder, body.isActive) ==> r == f
  {
    CardFields(Merge(f.title, body.title), Merge(f.imageUrl, body.imageUrl),
               Merge(f.actionType, body.actionType), Merge(f.actionValue, body.actionValue))
  }

  /** `PUT /:id`: every card with the id takes the given columns and the
      others stay; the reply is the card when exactly one has the id. */
  function UpdateCard(t: seq<Card>, authed: bool, id: nat, body: CardBody): (o: (seq<Card>, Reply<Card>))
    ensures !authed ==> o == (t, Denied)
    ensures authed ==> |o.0| == |t|
    ensures authed ==> forall i :: 0 <= i < |t| && t[i].id != id ==> o.0[i] == t[i]
    ensures authed ==> forall i :: 0 <= i < |t| && t[i].id == id ==>
      o.0[i] == Row(id, Keep(t[i].sortOrder, body.sortOrder), Keep(t[i].isActive, body.isActive),
                    MergeCard(t[i].fields, body))
    ensures authed ==> (o.1.Ok? <==> Count(t, HasId(id)) == 1)
    ensures authed && o.1.Ok? ==> o.1.status == 200 && o.1.value.id == id && o.1.value in o.0
    ensures authed && !o.1.Ok? ==> o.1 == Fail(500, UpdateFailed)
  {
    if !authed then (t, Denied)
    else
      var r := Update(t, id, body.sortOrder, body.isActive, (f: CardFields) => MergeCard(f, body), UpdateFailed);
      (r.table, r.reply)
  }

  /** `DELETE /:id`: 204 whether or not a card matched. */
  function DeleteCard(t: seq<Card>, authed: bool, id: nat): (o: (seq<Card>, Reply<()>))
    ensures !authed ==> o == (t, Denied)
    ensures authed ==> o.1 == Ok(204, ())
    ensures authed ==> forall x :: x in o.0 <==> x in t && x.id != id
    ensures authed ==> forall x :: multiset(o.0)[x] == if x.id == id then 0 else multiset(t)[x]
  {
    if !authed then (t, Denied) else (Delete(t, id), Ok(204, ()))
  }

  /** Whether a new card is public is the column default's business alone:
      an `is_active` in the create body has no effect. */
  lemma NewCardVisibilityIgnoresBody(t: seq<Card>, body: CardBody, activeDefault: bool)
    requires UniqueIds(t)
    ensures var (t', r) := CreateCard(t, true, body, activeDefault);
      && UniqueIds(t') && r.Ok?
      && (r.value in ListActive(t') <==> activeDefault)
      && r.value in ListAll(t')
      && CreateCard(t, true, body.(isActive := Some(!activeDefault)), activeDefault) == (t', r)
  {
    InsertListed(t, body.sortOrder, activeDefault,
                 CardFields(body.title, body.imageUrl, body.actionType, body.actionValue));
  }

  /** Updating an existing card answers it with exactly the given columns
      replaced, and leaves what every other id finds. */
  lemma UpdateCardWritesGivenColumns(t: seq<Card>, k: nat, body: CardBody, other: nat)
    requires UniqueIds(t)
    requires k < |t| && other != t[k].id
    ensures var (t', r) := UpdateCard(t, true, t[k].id, body);
      && r == Ok(200, Row(t[k].id, Keep(t[k].sortOrder, body.sortOrder), Keep(t[k].isActive, body.isActive),
                           MergeCard(t[k].fields, body)))
      && Lookup(t', t[k].id) == Some(r.value)
      && Lookup(t', other) == Lookup(t, other)
  {
    var id := t[k].id;
    var patch := (f: CardFields) => MergeCard(f, body);
    assert t[k] in t;
    LookupFinds(t, id);
    UpdateExisting(t, id, body.sortOrder, body.isActive, patch, UpdateFailed);
    UpdateKeepsOtherRows(t, id, body.sortOrder, body.isActive, patch, other);
  }
}
