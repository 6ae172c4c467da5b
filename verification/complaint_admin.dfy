/** The admin complaint table (`ComplaintManager`): the actions offered on
    each row, the status tag, and the status filter that drives the list
    request. */
module ComplaintAdmin {
  import opened Common
  import Complaints
  import ApiClient

  /** The buttons of a row: mark processed, mark ignored, delete. */
  datatype Action = MarkProcessed | MarkIgnored | Delete

  /** What pressing a button asks of the server. */
  datatype Call = PutStatus(id: nat, status: string) | DeleteRow(id: nat)

  /** The buttons a row shows: both status buttons only on a pending row,
      the delete button on every row, last. */
  function Actions(c: Complaints.Complaint): (r: seq<Action>)
    ensures |r| > 0 && r[|r| - 1] == Delete
    ensures MarkProcessed in r <==> c.status == Complaints.Pending
    ensures MarkIgnored in r <==> c.status == Complaints.Pending
    ensures c.status != Complaints.Pending ==> r == [Delete]
  {
    if c.status == Complaints.Pending then [MarkProcessed, MarkIgnored, Delete] else [Delete]
  }

  /** The request a button sends for its row. */
  function Press(c: Complaints.Complaint, a: Action): (call: Call)
    ensures a == Delete <==> call.DeleteRow?
    ensures call.id == c.id
    ensures call.PutStatus? ==> call.status == Complaints.Processed || call.status == Complaints.Ignored
  {
    match a
    case MarkProcessed => PutStatus(c.id, Complaints.Processed)
    case MarkIgnored => PutStatus(c.id, Complaints.Ignored)
    case Delete => DeleteRow(c.id)
  }

  /** The statuses the store knows about. */
  predicate KnownStatus(s: string) {
    s == Complaints.Pending || s == Complaints.Processed || s == Complaints.Ignored
  }

  /** The colour and caption of a row's status tag: defined exactly for the
      three known statuses. For any other status the tag renders without
      them (`None`). */
  function StatusTag(status: string): (r: Option<(string, string)>)
    ensures r.Some? <==> KnownStatus(status)
    ensures status == Complaints.Pending ==> r == Some(("orange", "待处理"))
    ensures status == Complaints.Processed ==> r == Some(("green", "已处理"))
    ensures status == Complaints.Ignored ==> r == Some(("red", "已忽略"))
  {
    if status == Complaints.Pending then Some(("orange", "待处理"))
    else if status == Complaints.Processed then Some(("green", "已处理"))
    else if status == Complaints.Ignored then Some(("red", "已忽略"))
    else None
  }

  /** What the server does with a call, signed in. */
  function Serve(t: seq<Complaints.Complaint>, call: Call): (r: seq<Complaints.Complaint>)
    ensures call.DeleteRow? ==> forall c :: c in r <==> c in t && c.id != call.id
  {
    match call
    case PutStatus(id, status) => Complaints.SetStatus(t, true, id, Some(status)).0
    case DeleteRow(id) =>
      var r := Complaints.Remove(t, true, id).0;
      assert forall c :: c in r <==> multiset(r)[c] > 0;
      r
  }

  /** Every status in the table has a tag. */
  predicate AllTagged(t: seq<Complaints.Complaint>) {
    forall i :: 0 <= i < |t| ==> KnownStatus(t[i].status)
  }

  /** A status button moves its row, and only its row, from pending to
      processed or ignored, and the row then offers only delete: the page
      never moves a complaint back to pending. Every row keeps a tag. */
  lemma StatusButtonsOneWay(t: seq<Complaints.Complaint>, k: nat, a: Action)
    requires k < |t| && a in Actions(t[k]) && a != Delete
    requires forall i :: 0 <= i < |t| && i != k ==> t[i].id != t[k].id
    requires AllTagged(t)
    ensures var t' := Serve(t, Press(t[k], a));
      && |t'| == |t|
      && t[k].status == Complaints.Pending
      && (t'[k].status == Complaints.Processed || t'[k].status == Complaints.Ignored)
      && Actions(t'[k]) == [Delete]
      && (forall i :: 0 <= i < |t| && i != k ==> t'[i] == t[i])
      && AllTagged(t')
  {
  }

  /** The filter choices: cleared, or one of the three statuses. */
  predicate FilterChoice(filter: Option<string>) {
    filter.None? || KnownStatus(filter.value)
  }

  /** The rows the table shows after a filter change: the list the server
      builds for the query the page sends, as `request` hands it back. */
  function Shown(t: seq<Complaints.Complaint>, filter: Option<string>, syntaxError: string): (r: seq<Complaints.Complaint>)
    requires FilterChoice(filter)
    ensures forall i, j :: 0 <= i < j < |r| ==> r[i].createdAt >= r[j].createdAt
    ensures filter.None? ==> multiset(r) == multiset(t)
    ensures filter.Some? ==> forall c :: multiset(r)[c] == if c.status == filter.value then multiset(t)[c] else 0
  {
    ListReachesPage(t, filter, syntaxError);
    ApiClient.Request(ApiClient.Wire(Complaints.List(t, true, ParseStatus(filter)), []), syntaxError).value
  }

  /** The list answer goes through `request` as a value, and it is the
      list for the filter chosen. */
  lemma ListReachesPage(t: seq<Complaints.Complaint>, filter: Option<string>, syntaxError: string)
    requires FilterChoice(filter)
    ensures ApiClient.Request(ApiClient.Wire(Complaints.List(t, true, ParseStatus(filter)), []), syntaxError)
            == ApiClient.Value(Complaints.List(t, true, filter).value)
  {
    ApiClient.AskedListIsServedList(t, filter);
    var list := Complaints.List(t, true, filter);
    assert list.Ok? && list.status == 200;
  }

  function ParseStatus(filter: Option<string>): Option<string> {
    ApiClient.ParseStatus(ApiClient.ComplaintsQuery(filter))
  }

  /** A status filter shows exactly the rows with that status; clearing it
      shows every row. */
  lemma FilterShowsExactly(t: seq<Complaints.Complaint>, filter: Option<string>, syntaxError: string, c: Complaints.Complaint)
    requires FilterChoice(filter)
    ensures filter.None? ==> (c in Shown(t, filter, syntaxError) <==> c in t)
    ensures filter.Some? ==> (c in Shown(t, filter, syntaxError) <==> c in t && c.status == filter.value)
  {
    var r := Shown(t, filter, syntaxError);
    assert c in r <==> multiset(r)[c] > 0;
    assert c in t <==> multiset(t)[c] > 0;
  }
}
