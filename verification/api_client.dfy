/** The browser's service layer: how `request` turns an HTTP response into a
    value or a thrown error, the query string of the complaint list, the
    token check, and the dispatch of a card or nav-link action. */
module ApiClient {
  import opened Common
  import opened Base64
  import Complaints

  /** What `response.json()` gives: a parse failure, or a JSON value whose
      `error` member is `errorField` (`None` when absent) and which reads
      as `value` of the expected type. */
  datatype Body<T> = NotJson | Json(errorField: Option<string>, value: T)

  datatype Response<T> = Response(status: nat, body: Body<T>)

  /** What `request` settles to: a value, `null`, or a thrown `Error`. */
  datatype Outcome<T> = Value(value: T) | Null | Threw(message: string)

  const RequestFailed: string := "请求失败"

  predicate IsOk(status: nat) { 200 <= status <= 299 }

  /** `request`. A status outside 200-299 throws the body's non-empty
      `error`, else "请求失败"; 204 gives `null` without reading the body; any
      other success gives the parsed body, and a body that is not JSON
      throws the parser's `syntaxError`. */
  function Request<T>(r: Response<T>, syntaxError: string): (o: Outcome<T>)
    ensures !IsOk(r.status) ==> o.Threw?
    ensures !IsOk(r.status) && r.body.Json? && r.body.errorField.Some? && r.body.errorField.value != [] ==>
      o == Threw(r.body.errorField.value)
    ensures !IsOk(r.status) && (r.body.NotJson? || r.body.errorField.None? || r.body.errorField.value == []) ==>
      o == Threw(RequestFailed)
    ensures r.status == 204 ==> o == Null
    ensures IsOk(r.status) && r.status != 204 && r.body.Json? ==> o == Value(r.body.value)
    ensures IsOk(r.status) && r.status != 204 && r.body.NotJson? ==> o == Threw(syntaxError)
  {
    if !IsOk(r.status) then
      if r.body.Json? && r.body.errorField.Some? && r.body.errorField.value != [] then Threw(r.body.errorField.value)
      else Threw(RequestFailed)
    else if r.status == 204 then Null
    else if r.body.NotJson? then Threw(syntaxError)
    else Value(r.body.value)
  }

  /** The response a route handler sends: `res.status(s).json(value)`, or
      `json({ error })` for a failure, or `res.status(204).send()` with no
      body. `Denied` is left to the authentication middleware, which is not
      modelled. */
  function Wire<T>(reply: Reply<T>, placeholder: T): (r: Response<T>)
    requires !reply.Denied?
    ensures r.status == reply.status
    ensures reply.Ok? && reply.status == 204 ==> r.body.NotJson?
    ensures reply.Ok? && reply.status != 204 ==> r.body.Json? && r.body.errorField.None? && r.body.value == reply.value
    ensures reply.Fail? ==> r.body.Json? && r.body.errorField == Some(reply.message)
  {
    match reply
    case Ok(status, v) => Response(status, if status == 204 then NotJson else Json(None, v))
    case Fail(status, message) => Response(status, Json(Some(message), placeholder))
  }

  /** Every handler error message reaches the caller as the thrown message,
      and every handler value as the settled value. */
  lemma ServerRepliesSurface<T>(reply: Reply<T>, placeholder: T, syntaxError: string)
    requires !reply.Denied?
    requires reply.Fail? ==> !IsOk(reply.status) && reply.message != []
    requires reply.Ok? ==> IsOk(reply.status)
    ensures var o := Request(Wire(reply, placeholder), syntaxError);
      && (reply.Fail? ==> o == Threw(reply.message))
      && (reply.Ok? && reply.status != 204 ==> o == Value(reply.value))
      && (reply.Ok? && reply.status == 204 ==> o == Null)
  {
  }

  // ---------------------------------------------------------------------
  // The complaint list query

  /** `getAllComplaints`: `?status=<status>` for a non-empty status, else
      nothing. The value is not percent-encoded. */
  function ComplaintsQuery(status: Option<string>): (q: string)
    ensures q == [] <==> status.None? || status.value == []
    ensures q != [] ==> q == "?status=" + status.value
  {
    if status.Some? && status.value != [] then "?status=" + status.value else ""
  }

  /** How the server reads `status` from a query string: the text after
      `?status=` up to the next `&` or `#`. The browser's removal of tabs
      and line breaks from the URL and of its trailing spaces and control
      characters, and the server's decoding of `+` and of `%` escapes, are
      not modelled, so this is the server's reading only of text that
      none of them touches. */
  function ParseStatus(q: string): (r: Option<string>)
    ensures r.Some? <==> |q| >= 8 && q[..8] == "?status="
    ensures r.Some? ==> r.value <= q[8..]
    ensures r.Some? ==> '&' !in r.value && '#' !in r.value
    ensures r.Some? && |r.value| < |q| - 8 ==> q[8 + |r.value|] in {'&', '#'}
  {
    if |q| >= 8 && q[..8] == "?status=" then Some(FirstField(FirstField(q[8..], '#'), '&')) else None
  }

  /** The status the page asks for is the status the server filters by, for
      a status the page's unencoded query passes through untouched: without
      `&`, `#`, `+`, `%`, tabs or line breaks, and not ending in a space or
      a control character (the admin page only sends `pending`, `processed`
      and `ignored`). */
  lemma QueryRoundTrip(status: Option<string>)
    requires status.Some? ==> '&' !in status.value && '#' !in status.value
    requires status.Some? ==> '+' !in status.value && '%' !in status.value
    requires status.Some? ==> '\t' !in status.value && '\n' !in status.value && '\r' !in status.value
    requires status.Some? && status.value != [] ==> status.value[|status.value| - 1] > ' '
    ensures var parsed := ParseStatus(ComplaintsQuery(status));
      && (status.None? || status.value == [] ==> parsed.None?)
      && (status.Some? && status.value != [] ==> parsed == status)
  {
    if status.Some? && status.value != [] {
      var q := ComplaintsQuery(status);
      assert q[..8] == "?status=";
      assert q[8..] == status.value;
      NoSeparator(status.value, '#');
      NoSeparator(status.value, '&');
    }
  }

  lemma {:induction false} NoSeparator(s: string, sep: char)
    requires sep !in s
    ensures FirstField(s, sep) == s
  {
    if |s| > 0 {
      assert s[1..] == s[1..];
      assert sep !in s[1..] by { assert forall c :: c in s[1..] ==> c in s; }
      NoSeparator(s[1..], sep);
      assert s == [s[0]] + s[1..];
    }
  }

  /** Across the wire, the admin list the page asks for is the list the
      handler builds for that status. */
  lemma AskedListIsServedList(t: seq<Complaints.Complaint>, status: Option<string>)
    requires status.Some? ==> '&' !in status.value && '#' !in status.value
    requires status.Some? ==> '+' !in status.value && '%' !in status.value
    requires status.Some? ==> '\t' !in status.value && '\n' !in status.value && '\r' !in status.value
    requires status.Some? && status.value != [] ==> status.value[|status.value| - 1] > ' '
    ensures Complaints.List(t, true, ParseStatus(ComplaintsQuery(status))) == Complaints.List(t, true, status)
  {
    QueryRoundTrip(status);
  }

  // ---------------------------------------------------------------------
  // Token check and action dispatch

  /** `checkAuth`: `!!token`, so a stored empty string counts as no token. */
  function CheckAuth(token: Option<string>): (b: bool)
    ensures b <==> token.Some? && |token.value| > 0
  {
    match token
    case None => false
    case Some(t) => t != []
  }

  /** What a click does: open a window, navigate the page, log a warning,
      or throw (when `btoa` refuses the group key). */
  datatype Effect = OpenWindow(url: string) | Navigate(url: string) | Warn(actionType: string) | Throws

  const QqFriendPrefix: string := "tencent://AddContact/" + "?fromId=50&fromSubId=1&subcmd=all&uin="
  const QqGroupPrefix: string := "tencent://groupwpa/?subcmd=all&param="

  /** The JSON text `{"groupkey":"<value>"}` the group link carries; the value
      is not escaped. */
  function GroupKeyJson(value: string): string {
    "{\"groupkey\":\"" + value + "\"}"
  }

  /** `handleAction`. */
  function HandleAction(actionType: string, actionValue: string): (e: Effect)
    ensures actionType == "qq_friend" ==> e == OpenWindow(QqFriendPrefix + actionValue)
    ensures actionType == "qq_group" ==>
      (e.Throws? <==> Btoa(GroupKeyJson(actionValue)).None?) &&
      (e.OpenWindow? ==> e.url == QqGroupPrefix + Btoa(GroupKeyJson(actionValue)).value)
    ensures actionType == "link" ==> e == OpenWindow(actionValue)
    ensures actionType == "page" ==> e == Navigate(actionValue)
    ensures actionType !in {"qq_friend", "qq_group", "link", "page"} <==> e.Warn?
    ensures e.Warn? ==> e.actionType == actionType
  {
    if actionType == "qq_friend" then OpenWindow(QqFriendPrefix + actionValue)
    else if actionType == "qq_group" then
      match Btoa(GroupKeyJson(actionValue))
      case None => Throws
      case Some(encoded) => OpenWindow(QqGroupPrefix + encoded)
    else if actionType == "link" then OpenWindow(actionValue)
    else if actionType == "page" then Navigate(actionValue)
    else Warn(actionType)
  }

  /** The group link: a throw, or the group prefix before the encoded key. */
  lemma GroupEffect(v: string)
    ensures var g := HandleAction("qq_group", v);
      g.Throws? || (g.OpenWindow? && |g.url| > |v| && g.url[10] == 'g')
  {
    var g := HandleAction("qq_group", v);
    if g.OpenWindow? {
      var e := Btoa(GroupKeyJson(v)).value;
      assert g.url == QqGroupPrefix + e;
      assert g.url[10] == QqGroupPrefix[10] == 'g';
    }
  }

  /** The friend link: the friend prefix before the value. */
  lemma FriendEffect(v: string)
    ensures var f := HandleAction("qq_friend", v);
      f.OpenWindow? && |f.url| > |v| && f.url[10] == 'A'
  {
    var f := HandleAction("qq_friend", v);
    assert f.url[10] == QqFriendPrefix[10] == 'A';
  }

  /** The four action types lead to four different effects for the same
      value. */
  lemma ActionsDistinct(v: string)
    ensures var f, g, l, p := HandleAction("qq_friend", v), HandleAction("qq_group", v),
                              HandleAction("link", v), HandleAction("page", v);
      f != g && f != l && f != p && g != l && g != p && l != p
  {
    FriendEffect(v);
    GroupEffect(v);
    assert HandleAction("link", v) == OpenWindow(v);
    assert HandleAction("page", v) == Navigate(v);
  }

  /** The friend link ends in `uin=` followed by the value. */
  lemma FriendLinkEndsWithValue(v: string)
    ensures var url := HandleAction("qq_friend", v).url;
      |url| >= |v| + 4 && url[|url| - |v| - 4..] == "uin=" + v
  {
    var url := HandleAction("qq_friend", v).url;
    assert url[|url| - |v| - 4..] == QqFriendPrefix[|QqFriendPrefix| - 4..] + v;
  }

  /** For a group key of characters up to U+00FF the link carries a base 64
      text that decodes to `{"groupkey":"<value>"}`. */
  lemma GroupLinkDecodes(v: string)
    requires forall i :: 0 <= i < |v| ==> v[i] as int < 256
    ensures var e := HandleAction("qq_group", v);
      && e.OpenWindow? && |e.url| >= |QqGroupPrefix| && e.url[..|QqGroupPrefix|] == QqGroupPrefix
      && var d := Decode(e.url[|QqGroupPrefix|..]);
         d.Some? && |d.value| == |GroupKeyJson(v)|
         && forall i :: 0 <= i < |d.value| ==> d.value[i] as int == GroupKeyJson(v)[i] as int
  {
    var j := GroupKeyJson(v);
    forall i | 0 <= i < |j| ensures j[i] as int < 256 {
      if 13 <= i < 13 + |v| {
        assert j[i] == v[i - 13];
      }
    }
    BtoaDecodes(j);
    var e := HandleAction("qq_group", v);
    assert e.url[|QqGroupPrefix|..] == Btoa(j).value;
  }
}
