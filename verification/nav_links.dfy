/** The nav-links router (`nav_links`): the ordered table of navigation
    links. No route of this router checks the admin token, so every
    operation takes effect for any caller and none answers `Denied`. */
module NavLinks {
  import opened Common
  import opened Query
  import opened OrderedTable

  datatype LinkFields = LinkFields(linkLabel: Option<string>, actionType: Option<string>, actionValue: Option<string>)

  type NavLink = Row<LinkFields>

  /** The JSON body of `POST /` and `PUT /:id`; `None` is an absent field. */
  datatype LinkBody = LinkBody(
    linkLabel: Option<string>, actionType: Option<string>, actionValue: Option<string>,
    sortOrder: Option<int>, isActive: Option<bool>)

  const UpdateFailed: string := "更新导航链接失败"

  /** `POST /`: `sort_order || 0`; `is_active` is not sent, so the new link
      takes the column default `activeDefault`. */
  function CreateLink(t: seq<NavLink>, body: LinkBody, activeDefault: bool): (o: (seq<NavLink>, Reply<NavLink>))
    ensures o.1.Ok? && o.1.status == 201 && o.0 == t + [o.1.value]
    ensures var l := o.1.value;
      && (forall x :: x in t ==> x.id != l.id)
      && l.isActive == activeDefault
      && l.sortOrder == (if body.sortOrder.Some? then body.sortOrder.value else 0)
      && l.fields == LinkFields(body.linkLabel, body.actionType, body.actionValue)
  {
    var (t', l) := Insert(t, body.sortOrder, activeDefault, LinkFields(body.linkLabel, body.actionType, body.actionValue));
    (t', Ok(201, l))
  }

  /** The columns `PUT /:id` writes besides `sort_order` and `is_active`:
      label, action type and action value, each only when given. */
  function MergeLink(f: LinkFields, body: LinkBody): (r: LinkFields)
    ensures r.linkLabel == (if body.linkLabel.Some? then body.linkLabel else f.linkLabel)
    ensures r.actionType == (if body.actionType.Some? then body.actionType else f.actionType)
    ensures r.actionValue == (if body.actionValue.Some? then body.actionValue else f.actionValue)
    ensures body == LinkBody(None, None, None, body.sortOrder, body.isActive) ==> r == f
  {
    LinkFields(Merge(f.linkLabel, body.linkLabel), Merge(f.actionType, body.actionType), Merge(f.actionValue, body.actionValue))
  }

  /** `PUT /:id`, for any caller: every link with the id takes the given
      columns and the others stay; the reply is the link when exactly one
      has the id. */
  function UpdateLink(t: seq<NavLink>, id: nat, body: LinkBody): (o: (seq<NavLink>, Reply<NavLink>))
    ensures |o.0| == |t|
    ensures forall i :: 0 <= i < |t| && t[i].id != id ==> o.0[i] == t[i]
    ensures forall i :: 0 <= i < |t| && t[i].id == id ==>
      o.0[i] == Row(id, Keep(t[i].sortOrder, body.sortOrder), Keep(t[i].isActive, body.isActive),
                    MergeLink(t[i].fields, body))
    ensures o.1.Ok? <==> Count(t, HasId(id)) == 1
    ensures o.1.Ok? ==> o.1.status == 200 && o.1.value.id == id && o.1.value in o.0
    ensures !o.1.Ok? ==> o.1 == Fail(500, UpdateFailed)
  {
    var r := Update(t, id, body.sortOrder, body.isActive, (f: LinkFields) => MergeLink(f, body), UpdateFailed);
    (r.table, r.reply)
  }

  function DeleteLink(t: seq<NavLink>, id: nat): (o: (seq<NavLink>, Reply<()>))
    ensures o.1 == Ok(204, ())
    ensures forall x :: x in o.0 <==> x in t && x.id != id
    ensures forall x :: multiset(o.0)[x] == if x.id == id then 0 else multiset(t)[x]
  {
    (Delete(t, id), Ok(204, ()))
  }

  /** Any caller can rename an existing link: the reply is the link with
      exactly the given columns replaced, and other ids are untouched. */
  lemma AnyCallerUpdatesLink(t: seq<NavLink>, k: nat, body: LinkBody, other: nat)
    requires UniqueIds(t)
    requires k < |t| && other != t[k].id
    ensures var (t', r) := UpdateLink(t, t[k].id, body);
      && r == Ok(200, Row(t[k].id, Keep(t[k].sortOrder, body.sortOrder), Keep(t[k].isActive, body.isActive),
                           MergeLink(t[k].fields, body)))
      && Lookup(t', t[k].id) == Some(r.value)
      && Lookup(t', other) == Lookup(t, other)
  {
    var id := t[k].id;
    var patch := (f: LinkFields) => MergeLink(f, body);
    assert t[k] in t;
    LookupFinds(t, id);
    UpdateExisting(t, id, body.sortOrder, body.isActive, patch, UpdateFailed);
    UpdateKeepsOtherRows(t, id, body.sortOrder, body.isActive, patch, other);
  }

  /** Any caller can create a link and then delete it again, leaving the
      links as they were. */
  lemma AnyCallerCreatesAndDeletes(t: seq<NavLink>, body: LinkBody, activeDefault: bool)
    requires UniqueIds(t)
    ensures var (t1, r) := CreateLink(t, body, activeDefault);
      && Lookup(t1, r.value.id) == Some(r.value)
      && DeleteLink(t1, r.value.id).0 == t
  {
    var (t1, r) := CreateLink(t, body, activeDefault);
    InsertListed(t, body.sortOrder, activeDefault, LinkFields(body.linkLabel, body.actionType, body.actionValue));
    DeleteAppendedRow(t, r.value);
  }
}
