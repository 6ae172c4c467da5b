/** The public complaint form (`ComplaintPage`): the two fields, the
    "submitting" flag that disables the button, and the thank-you screen
    that replaces the form once a complaint is in. */
module ComplaintPage {
  import opened Common
  import opened ClientIp
  import Complaints
  import ApiClient

  datatype Form = Form(content: string, contactInfo: string, submitting: bool, submitted: bool,
                       alert: Option<string>)

  const EnterContent: string := "请输入投诉或建议内容"
  const TryLater: string := "提交失败，请稍后重试"

  function Initial(): (f: Form)
    ensures f.content == [] && f.contactInfo == [] && !f.submitting && !f.submitted && f.alert.None?
  {
    Form([], [], false, false, None)
  }

  /** The form can be sent: it is on screen and its button is enabled. */
  predicate CanSend(f: Form) {
    !f.submitted && !f.submitting
  }

  /** `handleSubmit` up to the request. Content that trims to nothing
      raises the "enter content" alert and sends nothing; otherwise the
      form is marked as submitting and the body goes out (the second
      component) with both fields as typed. */
  function Press(f: Form): (r: (Form, Option<Complaints.ComplaintBody>))
    ensures !CanSend(f) ==> r == (f, None)
    ensures r.1.Some? <==> CanSend(f) && !AllSpace(f.content)
    ensures CanSend(f) && AllSpace(f.content) ==> r.0 == f.(alert := Some(EnterContent))
    ensures r.1.Some? ==> r.0 == f.(submitting := true)
    ensures r.1.Some? ==> r.1.value == Complaints.ComplaintBody(Some(f.content), Some(f.contactInfo))
  {
    if !CanSend(f) then (f, None)
    else if Trim(f.content) == [] then (f.(alert := Some(EnterContent)), None)
    else (f.(submitting := true), Some(Complaints.ComplaintBody(Some(f.content), Some(f.contactInfo))))
  }

  /** The rest of `handleSubmit` once the request settles: any answer that
      does not throw clears both fields and shows the thank-you screen; a
      throw keeps the fields and shows the "try later" alert. Either way
      the button is enabled again. */
  function Settle<T>(f: Form, result: ApiClient.Outcome<T>): (r: Form)
    ensures !r.submitting
    ensures !result.Threw? ==> r.submitted && r.content == [] && r.contactInfo == [] && r.alert == f.alert
    ensures result.Threw? ==> r == f.(submitting := false, alert := Some(TryLater))
  {
    if result.Threw? then f.(submitting := false, alert := Some(TryLater))
    else Form([], [], false, true, f.alert)
  }

  /** Whatever the form sends, the intake does not refuse as blank: the
      client's check and the server's agree. */
  lemma SentContentIsNeverBlank(f: Form)
    requires Press(f).1.Some?
    ensures !Complaints.Blank(Press(f).1.value.content)
  {
  }

  /** Blank content never reaches the server, whatever the contact field
      holds, and the fields stay as typed. */
  lemma BlankNeverSent(f: Form)
    requires AllSpace(f.content)
    ensures Press(f).1.None?
    ensures Press(f).0.content == f.content && Press(f).0.contactInfo == f.contactInfo
    ensures Press(f).0.submitted == f.submitted && Press(f).0.submitting == f.submitting
  {
  }

  /** End to end: a sendable form with content goes to the intake and its
      answer comes back through `request`. When the store takes the row the
      form is cleared, the thank-you screen shows and the stored complaint
      holds the trimmed content as `pending`; when the store refuses, the
      table is unchanged and the form keeps what was typed. */
  lemma SubmitRoundTrip(f: Form, t: seq<Complaints.Complaint>, forwarded: Forwarded, remoteAddress: Option<string>,
                        now: int, insertFails: bool, syntaxError: string)
    requires CanSend(f) && !AllSpace(f.content)
    ensures var p := Press(f);
      && p.1.Some?
      && var o := Complaints.Submit(t, p.1.value, forwarded, remoteAddress, now, insertFails);
      var f2 := Settle(p.0, ApiClient.Request(ApiClient.Wire(o.1, 0), syntaxError));
      && !f2.submitting
      && (!insertFails ==>
            && f2.submitted && f2.content == [] && f2.contactInfo == []
            && |o.0| == |t| + 1 && o.0[|t|].content == Trim(f.content)
            && o.0[|t|].status == Complaints.Pending)
      && (insertFails ==>
            && o.0 == t && !f2.submitted && f2.content == f.content
            && f2.contactInfo == f.contactInfo && f2.alert == Some(TryLater))
  {
    var p := Press(f);
    var o := Complaints.Submit(t, p.1.value, forwarded, remoteAddress, now, insertFails);
    assert !Complaints.Blank(p.1.value.content);
    if insertFails {
      assert o.1 == Fail(500, Complaints.SubmitFailed);
    } else {
      assert o.1.Ok? && o.1.status == 201;
    }
  }
}
