/** The public game table (`GameList`): the rows shown, the appointment in
    flight, and the last alert. An appointment click is two steps: the click
    itself, and the settling of the request it sends. */
module GameList {
  import opened Common
  import opened Query
  import opened OrderedTable
  import opened Games
  import opened ApiClient

  /** `broken` records that a render threw: the table is gone from the
      page. */
  datatype View = View(games: seq<Game>, appointing: Option<nat>, alert: Option<string>, broken: bool)

  const Booked: string := "预约成功！"

  /** The first render: the built-in rows, nothing in flight. */
  function Initial(defaults: seq<Game>): (v: View)
    ensures v.games == defaults && v.appointing.None? && v.alert.None? && !v.broken
  {
    View(defaults, None, None, false)
  }

  /** `loadGames`: a non-empty list replaces the rows; an empty list, a
      `null` or an error leaves them. */
  function LoadGames(v: View, result: ApiClient.Outcome<seq<Game>>): (r: View)
    ensures result.Value? && |result.value| > 0 ==> r == v.(games := result.value)
    ensures !(result.Value? && |result.value| > 0) ==> r == v
  {
    if result.Value? && |result.value| > 0 then v.(games := result.value) else v
  }

  /** `handleAppoint` up to the request: ignored while another appointment
      is in flight; otherwise the game is marked and a request goes out
      (the second component). */
  function ClickAppoint(v: View, gameId: nat): (r: (View, bool))
    ensures v.appointing.Some? <==> !r.1
    ensures v.appointing.Some? ==> r.0 == v
    ensures v.appointing.None? ==> r.0 == v.(appointing := Some(gameId))
  {
    if v.appointing.Some? then (v, false) else (v.(appointing := Some(gameId)), true)
  }

  /** The rows with one game's counter set to `count`. */
  function SetCount(games: seq<Game>, gameId: nat, count: int): (r: seq<Game>)
    ensures |r| == |games|
    ensures forall i :: 0 <= i < |games| ==>
      r[i] == if games[i].id == gameId then games[i].(fields := games[i].fields.(appointmentCount := count))
              else games[i]
  {
    seq(|games|, i requires 0 <= i < |games| =>
      if games[i].id == gameId then games[i].(fields := games[i].fields.(appointmentCount := count)) else games[i])
  }

  /** Whether some row shown is the game `gameId`. */
  predicate ShowsGame(games: seq<Game>, gameId: nat) {
    exists g :: g in games && g.id == gameId
  }

  /** The rest of `handleAppoint` once the request settles: on success the
      game's counter takes the server's number and "预约成功！" is shown; on
      a throw the error's message is shown; either way nothing is in flight
      afterwards. The counter is read inside the `setGames` updater, which
      runs outside the `try`: a `null` answer still shows "预约成功！", and
      the next render throws if a row has the game's id. */
  function SettleAppoint(v: View, gameId: nat, result: ApiClient.Outcome<int>): (r: View)
    ensures r.appointing.None?
    ensures result.Value? ==> r.games == SetCount(v.games, gameId, result.value) && r.alert == Some(Booked)
    ensures result.Threw? ==> r.games == v.games && r.alert == Some(result.message)
    ensures result.Null? ==> r.games == v.games && r.alert == Some(Booked)
    ensures r.broken <==> v.broken || (result.Null? && ShowsGame(v.games, gameId))
  {
    match result
    case Value(count) => v.(games := SetCount(v.games, gameId, count), appointing := None, alert := Some(Booked))
    case Threw(message) => v.(appointing := None, alert := Some(message))
    case Null =>
      v.(appointing := None, alert := Some(Booked), broken := v.broken || ShowsGame(v.games, gameId))
  }

  /** `handleLinkClick`: an empty, missing or `#` address does nothing;
      any other opens in a new window as a `link` action. */
  function LinkClick(url: Option<string>): (e: Option<Effect>)
    ensures e.Some? <==> url.Some? && url.value != [] && url.value != "#"
    ensures e.Some? ==> e.value == OpenWindow(url.value)
  {
    if url.Some? && url.value != [] && url.value != "#" then Some(HandleAction("link", url.value)) else None
  }

  /** A second click, on any game, while an appointment is in flight sends
      nothing and changes nothing; once the first settles, clicks work
      again. */
  lemma InFlightBlocksClicks(v: View, first: nat, second: nat, result: ApiClient.Outcome<int>)
    requires v.appointing.None?
    ensures var (v1, sent1) := ClickAppoint(v, first);
      && sent1
      && ClickAppoint(v1, second) == (v1, false)
      && ClickAppoint(SettleAppoint(v1, first, result), second).1
  {
  }

  /** Only the clicked game's counter changes, and only that column. */
  lemma SuccessTouchesOneCounter(v: View, gameId: nat, count: int)
    ensures var r := SettleAppoint(v, gameId, Value(count));
      && |r.games| == |v.games|
      && (forall i :: 0 <= i < |v.games| && v.games[i].id != gameId ==> r.games[i] == v.games[i])
      && (forall i :: 0 <= i < |v.games| && v.games[i].id == gameId ==>
            r.games[i].id == gameId && r.games[i].sortOrder == v.games[i].sortOrder
            && r.games[i].isActive == v.games[i].isActive
            && r.games[i].fields.name == v.games[i].fields.name
            && r.games[i].fields.appointmentCount == count)
  {
  }

  /** A `null` answer to a click on a shown game is announced as a success
      and then breaks the table, whose rows keep their old counters. */
  lemma NullAnswerBreaksTable(v: View, id: nat)
    requires v.appointing.None?
    requires ShowsGame(v.games, id)
    ensures var v2 := SettleAppoint(ClickAppoint(v, id).0, id, Null);
      v2.alert == Some(Booked) && v2.broken && v2.games == v.games
  {
  }

  /** A reply of the appoint handler, once through `request`: the number
      on success, the handler's message on a rejection. */
  lemma AppointReplySurfaces(reply: Reply<int>, syntaxError: string)
    requires reply.Ok? ==> reply.status == 200
    requires reply.Fail? ==> reply.status == 400 && reply.message == AlreadyAppointed
    requires !reply.Denied?
    ensures reply.Ok? ==> Request(Wire(reply, 0), syntaxError) == Value(reply.value)
    ensures reply.Fail? ==> Request(Wire(reply, 0), syntaxError) == Threw(AlreadyAppointed)
  {
  }

  /** Settling a successful appointment shows the number on the clicked
      game's rows. */
  lemma SettledRowsShow(v: View, id: nat, n: int)
    ensures var v2 := SettleAppoint(v, id, Value(n));
      forall i :: 0 <= i < |v2.games| && v2.games[i].id == id ==> v2.games[i].fields.appointmentCount == n
  {
  }

  /** End to end: a click on an existing game goes to the appoint handler
      and its answer comes back through `request`. On success the clicked
      row then shows the counter the server stored; on a same-day repeat
      the rows stay and the handler's message is shown. */
  lemma ClickShowsStoredCounter(s: GameStore, v: View, id: nat, ip: string, day: Day,
                                syntaxError: string)
    requires Invariant(s)
    requires Lookup(s.games, id).Some?
    requires v.appointing.None?
    ensures var v1 := ClickAppoint(v, id).0;
      var o := Appoint(s, id, ip, day, false);
      var v2 := SettleAppoint(v1, id, Request(Wire(o.1, 0), syntaxError));
      && v2.appointing.None? && v2.broken == v.broken
      && (o.1.Ok? ==> (Lookup(o.0.games, id).Some? && v2.alert == Some(Booked)
                       && forall i :: 0 <= i < |v2.games| && v2.games[i].id == id ==>
                            v2.games[i].fields.appointmentCount == CounterOf(o.0, id)))
      && (o.1.Fail? ==> v2.games == v.games && v2.alert == Some(AlreadyAppointed))
  {
    var v1 := ClickAppoint(v, id).0;
    var o := Appoint(s, id, ip, day, false);
    AppointReplySurfaces(o.1, syntaxError);
    var result := Request(Wire(o.1, 0), syntaxError);
    if o.1.Ok? {
      RejectedIffTaken(s, id, ip, day, false);
      AppointFresh(s, id, ip, day);
      assert result == Value(CounterOf(o.0, id));
      SettledRowsShow(v1, id, CounterOf(o.0, id));
    } else {
      assert result == Threw(AlreadyAppointed);
    }
  }
}
