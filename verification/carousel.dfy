/** The carousel router (`carousel_slides`): the ordered table of slides.
    Listing is public; create, update and delete sit behind the admin
    token. */
module Carousel {
  import opened Common
  import opened Query
  import opened OrderedTable

  datatype SlideFields = SlideFields(
    title: Option<string>, badge: Option<string>, description: Option<string>,
    refundPolicy: Option<string>, imageUrl: Option<string>)

  type Slide = Row<SlideFields>

  /** The JSON body of `POST /` and `PUT /:id`; `None` is an absent field. */
  datatype SlideBody = SlideBody(
    title: Option<string>, badge: Option<string>, description: Option<string>,
    refundPolicy: Option<string>, imageUrl: Option<string>,
    sortOrder: Option<int>, isActive: Option<bool>)

  const UpdateFailed: string := "更新轮播图失败"

  /** `POST /`: `sort_order || 0`, and `is_active` is true only when the body
      leaves it out, so an explicit false is kept. */
  function CreateSlide(t: seq<Slide>, authed: bool, body: SlideBody): (o: (seq<Slide>, Reply<Slide>))
    ensures !authed ==> o == (t, Denied)
    ensures authed ==> o.1.Ok? && o.1.status == 201 && o.0 == t + [o.1.value]
    ensures authed ==> var s := o.1.value;
      && (forall x :: x in t ==> x.id != s.id)
      && (s.isActive <==> body.isActive != Some(false))
      && s.sortOrder == (if body.sortOrder.Some? then body.sortOrder.value else 0)
      && s.fields == SlideFields(body.title, body.badge, body.description, body.refundPolicy, body.imageUrl)
  {
    if !authed then (t, Denied)
    else
      var (t', s) := Insert(t, body.sortOrder, body.isActive.GetOr(true),
                            SlideFields(body.title, body.badge, body.description, body.refundPolicy, body.imageUrl));
      (t', Ok(201, s))
  }

  /** The columns `PUT /:id` writes besides `sort_order` and `is_active`:
      title, badge, description, refund policy and image, each only when
      the body gives it. */
  function MergeSlide(f: SlideFields, body: SlideBody): (r: SlideFields)
    ensures r.title == (if body.title.Some? then body.title else f.title)
    ensures r.badge == (if body.badge.Some? then body.badge else f.badge)
    ensures r.description == (if body.description.Some? then body.description else f.description)
    ensures r.refundPolicy == (if body.refundPolicy.Some? then body.refundPolicy else f.refundPolicy)
    ensures r.imageUrl == (if body.imageUrl.Some? then body.imageUrl else f.imageUrl)
    ensures body == SlideBody(None, None, None, None, None, body.sortOrder, body.isActive) ==> r == f
  {
    SlideFields(Merge(f.title, body.title), Merge(f.badge, body.badge), Merge(f.description, body.description),
                Merge(f.refundPolicy, body.refundPolicy), Merge(f.imageUrl, body.imageUrl))
  }

  /** `PUT /:id`: every slide with the id takes the given columns and the
      others stay; the reply is the slide when exactly one has the id. */
  function UpdateSlide(t: seq<Slide>, authed: bool, id: nat, body: SlideBody): (o: (seq<Slide>, Reply<Slide>))
    ensures !authed ==> o == (t, Denied)
    ensures authed ==> |o.0| == |t|
    ensures authed ==> forall i :: 0 <= i < |t| && t[i].id != id ==> o.0[i] == t[i]
    ensures authed ==> forall i :: 0 <= i < |t| && t[i].id == id ==>
      o.0[i] == Row(id, Keep(t[i].sortOrder, body.sortOrder), Keep(t[i].isActive, body.isActive),
                    MergeSlide(t[i].fields, body))
    ensures authed ==> (o.1.Ok? <==> Count(t, HasId(id)) == 1)
    ensures authed && o.1.Ok? ==> o.1.status == 200 && o.1.value.id == id && o.1.value in o.0
    ensures authed && !o.1.Ok? ==> o.1 == Fail(500, UpdateFailed)
  {
    if !authed then (t, Denied)
    else
      var r := Update(t, id, body.sortOrder, body.isActive, (f: SlideFields) => MergeSlide(f, body), UpdateFailed);
      (r.table, r.reply)
  }

  /** `DELETE /:id`: 204 whether or not a slide matched. */
  function DeleteSlide(t: seq<Slide>, authed: bool, id: nat): (o: (seq<Slide>, Reply<()>))
    ensures !authed ==> o == (t, Denied)
    ensures authed ==> o.1 == Ok(204, ())
    ensures authed ==> forall x :: x in o.0 <==> x in t && x.id != id
    ensures authed ==> forall x :: multiset(o.0)[x] == if x.id == id then 0 else multiset(t)[x]
  {
    if !authed then (t, Denied) else (Delete(t, id), Ok(204, ()))
  }

  /** A new slide shows on the public carousel unless the body switched it
      off explicitly. */
  lemma NewSlideShownUnlessSwitchedOff(t: seq<Slide>, body: SlideBody)
    requires UniqueIds(t)
    ensures var (t', r) := CreateSlide(t, true, body);
      && UniqueIds(t') && r.Ok?
      && (r.value in ListActive(t') <==> body.isActive != Some(false))
      && r.value in ListAll(t')
  {
    InsertListed(t, body.sortOrder, body.isActive.GetOr(true),
                 SlideFields(body.title, body.badge, body.description, body.refundPolicy, body.imageUrl));
  }

  /** Updating an existing slide answers it with exactly the given columns
      replaced, and leaves what every other id finds. */
  lemma UpdateSlideWritesGivenColumns(t: seq<Slide>, k: nat, body: SlideBody, other: nat)
    requires UniqueIds(t)
    requires k < |t| && other != t[k].id
    ensures var (t', r) := UpdateSlide(t, true, t[k].id, body);
      && r == Ok(200, Row(t[k].id, Keep(t[k].sortOrder, body.sortOrder), Keep(t[k].isActive, body.isActive),
                           MergeSlide(t[k].fields, body)))
      && Lookup(t', t[k].id) == Some(r.value)
      && Lookup(t', other) == Lookup(t, other)
  {
    var id := t[k].id;
    var patch := (f: SlideFields) => MergeSlide(f, body);
    assert t[k] in t;
    LookupFinds(t, id);
    UpdateExisting(t, id, body.sortOrder, body.isActive, patch, UpdateFailed);
    UpdateKeepsOtherRows(t, id, body.sortOrder, body.isActive, patch, other);
  }
}
