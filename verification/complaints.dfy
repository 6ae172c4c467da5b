/** The complaints router: public intake of a complaint, and the admin list,
    status change and delete. */
module Complaints {
  import opened Common
  import opened Sorting
  import opened Query
  import opened ClientIp

  /** `created_at` is the store's insertion time; the clock is an input and
      a time is a number that grows with time. */
  datatype Complaint = Complaint(
    id: nat, content: string, contactInfo: Option<string>, ipAddress: string,
    status: string, createdAt: int)

  /** The JSON body of `POST /`; `None` is an absent field. */
  datatype ComplaintBody = ComplaintBody(content: Option<string>, contactInfo: Option<string>)

  const Pending: string := "pending"
  const Processed: string := "processed"
  const Ignored: string := "ignored"

  const EmptyContent: string := "投诉内容不能为空"
  const SubmitFailed: string := "提交投诉失败"
  const StatusUpdateFailed: string := "更新投诉状态失败"

  function IdOf(c: Complaint): int { c.id }

  ghost predicate DistinctIds(t: seq<Complaint>) {
    UniqueBy(t, IdOf)
  }

  function NewId(t: seq<Complaint>): (n: nat)
    ensures forall c :: c in t ==> c.id < n
  {
    FreshKey(t, (c: Complaint) => c.id)
  }

  /** `contact_info || null`: an absent or empty contact is stored as null. */
  function StoredContact(given: Option<string>): (r: Option<string>)
    ensures r.Some? <==> given.Some? && given.value != []
    ensures r.Some? ==> r == given
  {
    if given.Some? && given.value != [] then given else None
  }

  /** Content the intake refuses: absent, or nothing but white space. */
  predicate Blank(content: Option<string>) {
    content.None? || Trim(content.value) == []
  }

  /** `POST /`: refuse blank content with 400, else insert the trimmed
      content as `pending` under the sender's origin identifier and answer
      201 with the new id. `insertFails` is the store refusing the insert. */
  function Submit(t: seq<Complaint>, body: ComplaintBody, forwarded: Forwarded, remoteAddress: Option<string>,
                  now: int, insertFails: bool): (o: (seq<Complaint>, Reply<nat>))
    ensures o.1 == Fail(400, EmptyContent) <==> Blank(body.content)
    ensures o.1.Fail? ==> o.0 == t
    ensures o.1.Fail? ==> o.1 == Fail(400, EmptyContent) || (insertFails && o.1 == Fail(500, SubmitFailed))
    ensures o.1.Ok? ==> o.1.status == 201 && |o.0| == |t| + 1 && o.0[..|t|] == t
    ensures o.1.Ok? ==> var c := o.0[|t|];
      && body.content.Some? && !AllSpace(body.content.value)
      && c.id == o.1.value && (forall x :: x in t ==> x.id != c.id)
      && c.content == Trim(body.content.value) && Trimmed(c.content) && c.content != []
      && c.contactInfo == StoredContact(body.contactInfo)
      && c.status == Pending
      && c.ipAddress == GetClientIp(forwarded, remoteAddress)
      && c.createdAt == now
    ensures !o.1.Denied?
  {
    if Blank(body.content) then (t, Fail(400, EmptyContent))
    else if insertFails then (t, Fail(500, SubmitFailed))
    else
      var c := Complaint(NewId(t), Trim(body.content.value), StoredContact(body.contactInfo),
                         GetClientIp(forwarded, remoteAddress), Pending, now);
      (t + [c], Ok(201, c.id))
  }

  function Newest(c: Complaint): int { -c.createdAt }

  function HasStatus(status: string): Complaint -> bool {
    (c: Complaint) => c.status == status
  }

  /** `GET /`: newest first, narrowed to one status only when the query
      names a non-empty one. */
  function List(t: seq<Complaint>, authed: bool, status: Option<string>): (r: Reply<seq<Complaint>>)
    ensures !authed <==> r.Denied?
    ensures authed ==> r.Ok? && r.status == 200
    ensures r.Ok? ==> forall i, j :: 0 <= i < j < |r.value| ==> r.value[i].createdAt >= r.value[j].createdAt
    ensures r.Ok? && (status.None? || status.value == []) ==> multiset(r.value) == multiset(t)
    ensures r.Ok? && status.Some? && status.value != [] ==>
      forall c :: multiset(r.value)[c] == if c.status == status.value then multiset(t)[c] else 0
  {
    if !authed then Denied
    else
      var rows := if status.Some? && status.value != [] then Select(t, HasStatus(status.value)) else t;
      var sorted := SortBy(rows, Newest);
      assert SortedBy(sorted, Newest);
      Ok(200, sorted)
  }

  /** `PUT /:id`: every row with the id takes the status the body gives;
      the reply is the row when exactly one has the id. The status is not
      checked against the three the admin page uses. */
  function SetStatus(t: seq<Complaint>, authed: bool, id: nat, status: Option<string>)
    : (o: (seq<Complaint>, Reply<Complaint>))
    ensures !authed ==> o == (t, Denied)
    ensures authed ==> |o.0| == |t|
    ensures authed ==> forall i :: 0 <= i < |t| ==>
      o.0[i] == if t[i].id == id then t[i].(status := Keep(t[i].status, status)) else t[i]
    ensures authed ==> o.1.Ok? || o.1 == Fail(500, StatusUpdateFailed)
    ensures o.1.Ok? ==> o.1.status == 200 && o.1.value in o.0 && o.1.value.id == id
  {
    if !authed then (t, Denied)
    else
      var t' := seq(|t|, i requires 0 <= i < |t| =>
                  if t[i].id == id then t[i].(status := Keep(t[i].status, status)) else t[i]);
      match Single(t', KeyIs(IdOf, id))
      case Some(c) => (t', Ok(200, c))
      case None => (t', Fail(500, StatusUpdateFailed))
  }

  /** `DELETE /:id`: 204 whether or not a row matched. */
  function Remove(t: seq<Complaint>, authed: bool, id: nat): (o: (seq<Complaint>, Reply<()>))
    ensures !authed ==> o == (t, Denied)
    ensures authed ==> o.1 == Ok(204, ())
    ensures authed ==> forall c :: multiset(o.0)[c] == if c.id == id then 0 else multiset(t)[c]
  {
    if !authed then (t, Denied) else (Select(t, (c: Complaint) => c.id != id), Ok(204, ()))
  }

  /** Every row the filter admits is in the admin list. */
  lemma Listed(t: seq<Complaint>, status: Option<string>, c: Complaint)
    requires c in t
    requires status.None? || status.value == [] || c.status == status.value
    ensures c in List(t, true, status).value
  {
    assert multiset(t)[c] > 0;
    assert multiset(List(t, true, status).value)[c] > 0;
  }

  /** A complaint taken in keeps ids distinct and shows in the admin list,
      both unfiltered and under the `pending` filter. */
  lemma SubmittedIsListedPending(t: seq<Complaint>, body: ComplaintBody, forwarded: Forwarded,
                                 remoteAddress: Option<string>, now: int)
    requires DistinctIds(t)
    requires !Blank(body.content)
    ensures var o := Submit(t, body, forwarded, remoteAddress, now, false);
      && o.1.Ok? && DistinctIds(o.0)
      && o.0[|t|] in List(o.0, true, None).value
      && o.0[|t|] in List(o.0, true, Some(Pending)).value
  {
    var o := Submit(t, body, forwarded, remoteAddress, now, false);
    var t' := o.0;
    var c := t'[|t|];
    assert o.1.Ok? && c.status == Pending;
    assert t' == t + [c];
    assert DistinctIds(t') by {
      assert forall i :: 0 <= i < |t| ==> t[i] in t;
      UniqueSnoc(t, c, IdOf);
    }
    assert c in t';
    Listed(t', None, c);
    Listed(t', Some(Pending), c);
  }

  /** An empty status in the query is no filter at all. */
  lemma EmptyFilterListsAll(t: seq<Complaint>)
    ensures List(t, true, Some([])) == List(t, true, None)
  {
  }

  /** Changing the status of an existing complaint answers the row with only
      its status changed, and every other row stays as it was. */
  lemma SetStatusChangesOnlyStatus(t: seq<Complaint>, k: nat, status: string)
    requires DistinctIds(t)
    requires k < |t|
    ensures var (t', r) := SetStatus(t, true, t[k].id, Some(status));
      && r == Ok(200, t[k].(status := status))
      && t'[k] == t[k].(status := status)
      && (forall i :: 0 <= i < |t| && i != k ==> t'[i] == t[i])
      && DistinctIds(t')
  {
    var id := t[k].id;
    var t' := SetStatus(t, true, id, Some(status)).0;
    assert DistinctIds(t');
    assert t'[k] in t';
    FindByKey(t', IdOf, id);
  }

  /** A status change for an id no row has answers 500 and changes nothing. */
  lemma SetStatusMissing(t: seq<Complaint>, id: nat, status: Option<string>)
    requires forall c :: c in t ==> c.id != id
    ensures SetStatus(t, true, id, status) == (t, Fail(500, StatusUpdateFailed))
  {
    var t' := SetStatus(t, true, id, status).0;
    assert t' == t;
    CountBounds(t, KeyIs(IdOf, id));
  }

  /** After a delete no row has the id, ids stay distinct, and every other
      row is still there. */
  lemma RemoveLeavesOthers(t: seq<Complaint>, id: nat)
    requires DistinctIds(t)
    ensures var t' := Remove(t, true, id).0;
      && (forall c :: c in t' ==> c.id != id)
      && (forall c :: c in t && c.id != id ==> c in t')
      && DistinctIds(t')
  {
    var t' := Remove(t, true, id).0;
    forall c | c in t' ensures c.id != id && c in t {
      assert multiset(t')[c] > 0;
    }
    forall c | c in t && c.id != id ensures c in t' {
      assert multiset(t')[c] > 0;
    }
    SelectKeepsUniqueBy(t, (c: Complaint) => c.id != id, IdOf);
  }
}
