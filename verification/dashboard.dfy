/** The admin dashboard (`GET /dashboard-stats`): three exact counts over
    the store and a fixed visit figure. A count query that fails yields no
    count, which the handler reports as 0. */
module Dashboard {
  import opened Common
  import opened Query
  import opened ClientIp
  import opened OrderedTable
  import opened Games
  import opened Complaints

  datatype Stats = Stats(todayVisits: int, totalAppointments: nat, activeGames: nat, pendingComplaints: nat)

  /** The three count queries the handler issues. */
  datatype CountQuery = AllAppointments | ActiveGames | PendingComplaints

  const TodayVisits: int := 1234

  function IsPending(c: Complaint): bool { c.status == Pending }

  /** `failed` names the count queries whose result carries no count. */
  function DashboardStats(s: GameStore, complaints: seq<Complaint>, authed: bool, failed: set<CountQuery>)
    : (r: Reply<Stats>)
    ensures !authed <==> r.Denied?
    ensures r.Ok? ==> r.status == 200 && r.value.todayVisits == 1234
    ensures r.Ok? ==> r.value.totalAppointments == if AllAppointments in failed then 0 else |s.appointments|
    ensures r.Ok? ==> r.value.activeGames <= |s.games| && r.value.pendingComplaints <= |complaints|
    ensures r.Ok? && ActiveGames in failed ==> r.value.activeGames == 0
    ensures r.Ok? && PendingComplaints in failed ==> r.value.pendingComplaints == 0
  {
    if !authed then Denied
    else
      Ok(200, Stats(
        TodayVisits,
        if AllAppointments in failed then 0 else |s.appointments|,
        if ActiveGames in failed then 0 else Count(s.games, Active<GameFields>),
        if PendingComplaints in failed then 0 else Count(complaints, IsPending)))
  }

  /** The active-games figure is the length of the public game list. */
  lemma ActiveGamesIsPublicListLength(s: GameStore, complaints: seq<Complaint>, failed: set<CountQuery>)
    requires ActiveGames !in failed
    ensures DashboardStats(s, complaints, true, failed).value.activeGames == |ListActive(s.games)|
  {
    assert |ListActive(s.games)| == |Select(s.games, Active<GameFields>)|;
  }

  /** The pending figure is the number of complaints the admin list shows
      under the `pending` filter. */
  lemma PendingIsPendingListLength(s: GameStore, complaints: seq<Complaint>, failed: set<CountQuery>)
    requires PendingComplaints !in failed
    ensures DashboardStats(s, complaints, true, failed).value.pendingComplaints
            == |Complaints.List(complaints, true, Some(Pending)).value|
  {
    var listed := Complaints.List(complaints, true, Some(Pending)).value;
    var sel := Select(complaints, IsPending);
    assert multiset(listed) == multiset(sel);
    assert |listed| == |multiset(listed)| == |multiset(sel)| == |sel|;
  }

  /** The pending figure is zero exactly when no complaint is pending. */
  lemma NoPendingIffZero(s: GameStore, complaints: seq<Complaint>, failed: set<CountQuery>)
    requires PendingComplaints !in failed
    ensures DashboardStats(s, complaints, true, failed).value.pendingComplaints == 0
            <==> forall c :: c in complaints ==> c.status != Pending
  {
    CountBounds(complaints, IsPending);
  }

  /** A successful appointment raises the appointment total by one; any other
      outcome leaves every figure as it was. */
  lemma AppointRaisesTotal(s: GameStore, complaints: seq<Complaint>, id: nat, ip: string, day: Day,
                           insertFails: bool)
    ensures var (s', r) := Appoint(s, id, ip, day, insertFails);
      var before := DashboardStats(s, complaints, true, {}).value;
      var after := DashboardStats(s', complaints, true, {}).value;
      && (r.Ok? ==> after.totalAppointments == before.totalAppointments + 1)
      && (r.Fail? ==> after == before)
  {
  }

  /** An accepted complaint raises the pending figure by one; a refused one
      changes nothing. */
  lemma SubmitRaisesPending(s: GameStore, complaints: seq<Complaint>, body: ComplaintBody, forwarded: Forwarded,
                            remoteAddress: Option<string>, now: int, insertFails: bool)
    ensures var (c', r) := Submit(complaints, body, forwarded, remoteAddress, now, insertFails);
      var before := DashboardStats(s, complaints, true, {}).value;
      var after := DashboardStats(s, c', true, {}).value;
      && (r.Ok? ==> after.pendingComplaints == before.pendingComplaints + 1)
      && (r.Fail? ==> after == before)
  {
    var (c', r) := Submit(complaints, body, forwarded, remoteAddress, now, insertFails);
    if r.Ok? {
      assert c' == complaints + [c'[|complaints|]];
      CountAppend(complaints, c'[|complaints|], IsPending);
    }
  }
}
