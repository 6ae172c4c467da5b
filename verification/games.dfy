/** The games router: the ordered game table and the appointment guard,
    which lets each origin make one appointment per game per day and keeps a
    visible counter on the game. Execution is sequential: one request is
    handled completely before the next begins. */
module Games {
  import opened Common
  import opened Query
  import opened OrderedTable

  /** The calendar day of the request, `YYYY-MM-DD` in UTC; the clock is an
      input of the model. */
  type Day = string

  /** The game columns besides id, `sort_order` and `is_active`. Text columns
      are `None` when the row was inserted without them. */
  datatype GameFields = GameFields(
    name: Option<string>, rhythm: Option<string>, kind: Option<string>, engine: Option<string>,
    description: Option<string>, score: int, appointmentCount: int,
    launcherUrl: Option<string>, webGameUrl: Option<string>, introUrl: Option<string>)

  type Game = Row<GameFields>

  /** The JSON body of `POST /` and `PUT /:id`; `None` is an absent field. */
  datatype GameBody = GameBody(
    name: Option<string>, rhythm: Option<string>, kind: Option<string>, engine: Option<string>,
    description: Option<string>, score: Option<int>,
    launcherUrl: Option<string>, webGameUrl: Option<string>, introUrl: Option<string>,
    sortOrder: Option<int>, isActive: Option<bool>)

  /** One row of the `appointments` table: the game, the origin identifier
      and the day. */
  datatype Appointment = Appointment(gameId: nat, ip: string, day: Day)

  datatype GameStore = GameStore(games: seq<Game>, appointments: seq<Appointment>)

  const AlreadyAppointed: string := "今日已预约，每个IP每天只能预约一次"
  const AppointFailed: string := "预约失败"
  const UpdateFailed: string := "更新游戏失败"

  function SameSlot(id: nat, ip: string, day: Day): Appointment -> bool {
    (a: Appointment) => a.gameId == id && a.ip == ip && a.day == day
  }

  function ForGame(id: nat): Appointment -> bool {
    (a: Appointment) => a.gameId == id
  }

  /** The id the store gives a new game: unused by any game and by any
      appointment row, so that no earlier appointment is counted for it. */
  function FreshGameId(s: GameStore): (n: nat)
    ensures forall g :: g in s.games ==> g.id < n
    ensures forall a :: a in s.appointments ==> a.gameId < n
  {
    var m := FreshId(s.games);
    var k := FreshKey(s.appointments, (a: Appointment) => a.gameId);
    if m < k then k else m
  }

  // ---------------------------------------------------------------------
  // Admin CRUD

  /** `POST /`: `score` and `sort_order` fall back to 0 when falsy, the
      counter starts at 0, and `is_active` is not sent, so it takes the
      column default `activeDefault`. */
  function CreateGame(s: GameStore, authed: bool, body: GameBody, activeDefault: bool): (o: (GameStore, Reply<Game>))
    ensures !authed ==> o == (s, Denied)
    ensures authed ==> o.1.Ok? && o.1.status == 201
    ensures authed ==> var g := o.1.value;
      && o.0 == GameStore(s.games + [g], s.appointments)
      && (forall x :: x in s.games ==> x.id != g.id)
      && g.fields.appointmentCount == 0
      && g.fields.score == (if body.score.Some? then body.score.value else 0)
      && g.sortOrder == (if body.sortOrder.Some? then body.sortOrder.value else 0)
      && g.isActive == activeDefault
      && g.fields == GameFields(body.name, body.rhythm, body.kind, body.engine, body.description,
                                g.fields.score, 0, body.launcherUrl, body.webGameUrl, body.introUrl)
  {
    if !authed then (s, Denied)
    else
      var g := Row(FreshGameId(s), OrZero(body.sortOrder), activeDefault,
                   GameFields(body.name, body.rhythm, body.kind, body.engine, body.description,
                              OrZero(body.score), 0, body.launcherUrl, body.webGameUrl, body.introUrl));
      (GameStore(s.games + [g], s.appointments), Ok(201, g))
  }

  /** The columns `PUT /:id` writes: every listed field the body gives; the
      appointment counter is not among them. */
  function MergeGame(f: GameFields, body: GameBody): (r: GameFields)
    ensures r.appointmentCount == f.appointmentCount
    ensures body.score.Some? ==> r.score == body.score.value
    ensures body.score.None? ==> r.score == f.score
    ensures r.name == (if body.name.Some? then body.name else f.name)
    ensures r.rhythm == (if body.rhythm.Some? then body.rhythm else f.rhythm)
    ensures r.kind == (if body.kind.Some? then body.kind else f.kind)
    ensures r.engine == (if body.engine.Some? then body.engine else f.engine)
    ensures r.description == (if body.description.Some? then body.description else f.description)
    ensures r.launcherUrl == (if body.launcherUrl.Some? then body.launcherUrl else f.launcherUrl)
    ensures r.webGameUrl == (if body.webGameUrl.Some? then body.webGameUrl else f.webGameUrl)
    ensures r.introUrl == (if body.introUrl.Some? then body.introUrl else f.introUrl)
  {
    GameFields(Merge(f.name, body.name), Merge(f.rhythm, body.rhythm), Merge(f.kind, body.kind),
               Merge(f.engine, body.engine), Merge(f.description, body.description),
               Keep(f.score, body.score), f.appointmentCount,
               Merge(f.launcherUrl, body.launcherUrl), Merge(f.webGameUrl, body.webGameUrl),
               Merge(f.introUrl, body.introUrl))
  }

  function Patcher(body: GameBody): GameFields -> GameFields {
    (f: GameFields) => MergeGame(f, body)
  }

  /** `PUT /:id`: every game with the id takes the given columns and the
      others stay; the appointment rows are not touched. The reply is the
      game when exactly one has the id. */
  function UpdateGame(s: GameStore, authed: bool, id: nat, body: GameBody): (o: (GameStore, Reply<Game>))
    ensures !authed ==> o == (s, Denied)
    ensures authed ==> o.0.appointments == s.appointments
    ensures authed ==> |o.0.games| == |s.games|
    ensures authed ==> forall i :: 0 <= i < |s.games| && s.games[i].id != id ==> o.0.games[i] == s.games[i]
    ensures authed ==> forall i :: 0 <= i < |s.games| && s.games[i].id == id ==>
      o.0.games[i] == Row(id, Keep(s.games[i].sortOrder, body.sortOrder), Keep(s.games[i].isActive, body.isActive),
                          MergeGame(s.games[i].fields, body))
    ensures authed ==> (o.1.Ok? <==> Count(s.games, HasId(id)) == 1)
    ensures authed && o.1.Ok? ==> o.1.status == 200 && o.1.value.id == id && o.1.value in o.0.games
    ensures authed && !o.1.Ok? ==> o.1 == Fail(500, UpdateFailed)
  {
    if !authed then (s, Denied)
    else
      var r := Update(s.games, id, body.sortOrder, body.isActive, Patcher(body), UpdateFailed);
      (GameStore(r.table, s.appointments), r.reply)
  }

  /** `DELETE /:id`: 204 whether or not a row matched. The appointment rows
      of the game stay. */
  function DeleteGame(s: GameStore, authed: bool, id: nat): (o: (GameStore, Reply<()>))
    ensures !authed ==> o == (s, Denied)
    ensures authed ==> o.1 == Ok(204, ()) && o.0.appointments == s.appointments
    ensures authed ==> forall g :: g in o.0.games <==> g in s.games && g.id != id
    ensures authed ==> forall g :: multiset(o.0.games)[g] == if g.id == id then 0 else multiset(s.games)[g]
  {
    if !authed then (s, Denied) else (GameStore(Delete(s.games, id), s.appointments), Ok(204, ()))
  }

  // ---------------------------------------------------------------------
  // The appointment guard

  /** The patch of the counter write-back. */
  function SetCounter(n: int): GameFields -> GameFields {
    (f: GameFields) => f.(appointmentCount := n)
  }

  /** `POST /:id/appoint` for the origin `ip` on `day`. The existence check
      is a `.single()`, so it sees an earlier appointment only when exactly
      one row matches. `insertFails` says whether the store rejects the
      insert (for instance an id no game has, if the schema forbids it). The
      counter is then re-read and written back; an id no game has reads as 0
      and the write-back matches no row. */
  function Appoint(s: GameStore, id: nat, ip: string, day: Day, insertFails: bool): (o: (GameStore, Reply<int>))
    ensures o.1 == Fail(400, AlreadyAppointed) <==> Count(s.appointments, SameSlot(id, ip, day)) == 1
    ensures o.1.Fail? ==> o.0 == s
    ensures o.1.Fail? ==> o.1 == Fail(400, AlreadyAppointed) || (insertFails && o.1 == Fail(500, AppointFailed))
    ensures o.1.Ok? ==> o.0.appointments == s.appointments + [Appointment(id, ip, day)]
    ensures o.1.Ok? ==> o.1.status == 200
    ensures o.1.Ok? ==>
      o.1.value == (if Lookup(s.games, id).Some? then Lookup(s.games, id).value.fields.appointmentCount else 0) + 1
    ensures o.1.Ok? ==> |o.0.games| == |s.games|
    ensures o.1.Ok? ==> forall i :: 0 <= i < |s.games| ==>
      o.0.games[i] == if s.games[i].id == id
                      then s.games[i].(fields := s.games[i].fields.(appointmentCount := o.1.value))
                      else s.games[i]
    ensures !o.1.Fail? <==> o.1.Ok?
  {
    if Single(s.appointments, SameSlot(id, ip, day)).Some? then (s, Fail(400, AlreadyAppointed))
    else if insertFails then (s, Fail(500, AppointFailed))
    else (Appointed(s, Appointment(id, ip, day)), Ok(200, NextCount(s, id)))
  }

  /** The counter re-read and incremented: an id no game has reads as 0. */
  function NextCount(s: GameStore, id: nat): int {
    (if Lookup(s.games, id).Some? then Lookup(s.games, id).value.fields.appointmentCount else 0) + 1
  }

  /** The store after a successful appointment: the row appended, the
      counter written back to the game's rows. */
  function Appointed(s: GameStore, a: Appointment): GameStore {
    GameStore(UpdateRows(s.games, a.gameId, None, None, SetCounter(NextCount(s, a.gameId))), s.appointments + [a])
  }

  // ---------------------------------------------------------------------
  // The store invariant

  /** At most one appointment row per (game, origin, day). */
  predicate OnePerSlot(appts: seq<Appointment>) {
    forall i, j :: 0 <= i < j < |appts| ==> appts[i] != appts[j]
  }

  /** A game's counter is the number of its appointment rows. */
  predicate CountMatches(appts: seq<Appointment>, g: Game) {
    g.fields.appointmentCount == Count(appts, ForGame(g.id))
  }

  /** Every game's counter is the number of its appointment rows. The
      trigger keeps the solver from counting rows for every game it meets. */
  predicate CountsMatch(s: GameStore) {
    forall g {:trigger CountMatches(s.appointments, g)} :: g in s.games ==> CountMatches(s.appointments, g)
  }

  ghost predicate Invariant(s: GameStore) {
    UniqueIds(s.games) && OnePerSlot(s.appointments) && CountsMatch(s)
  }

  /** With one row per slot, the `.single()` check sees every earlier
      appointment: a slot counts 1 exactly when it is taken. */
  lemma {:induction false} SlotCount(appts: seq<Appointment>, a: Appointment)
    requires OnePerSlot(appts)
    ensures Count(appts, SameSlot(a.gameId, a.ip, a.day)) == (if a in appts then 1 else 0)
  {
    var p := SameSlot(a.gameId, a.ip, a.day);
    if |appts| > 0 {
      var init := appts[..|appts| - 1];
      var last := appts[|appts| - 1];
      assert appts == init + [last];
      SlotCount(init, a);
      CountAppend(init, last, p);
      if last == a {
        forall j | 0 <= j < |init| ensures init[j] != a {
          assert appts[j] != appts[|appts| - 1];
        }
      }
    }
  }

  /** Under the invariant the guard rejects exactly the slots already taken. */
  lemma RejectedIffTaken(s: GameStore, id: nat, ip: string, day: Day, insertFails: bool)
    requires Invariant(s)
    ensures Appoint(s, id, ip, day, insertFails).1 == Fail(400, AlreadyAppointed)
            <==> Appointment(id, ip, day) in s.appointments
  {
    SlotCount(s.appointments, Appointment(id, ip, day));
  }

  /** A new slot appended to slots taken once each keeps them taken once. */
  lemma AppendKeepsOnePerSlot(appts: seq<Appointment>, a: Appointment)
    requires OnePerSlot(appts)
    requires a !in appts
    ensures OnePerSlot(appts + [a])
  {
    var t := appts + [a];
    forall i, j | 0 <= i < j < |t| ensures t[i] != t[j] {
      if j == |appts| {
        assert t[i] == appts[i];
        assert appts[i] in appts;
      }
    }
  }

  /** One game after the write-back still counts its rows once the new
      row is appended. */
  lemma BumpKeepsCount(s: GameStore, a: Appointment, newCount: int, before: Game)
    requires UniqueIds(s.games) && CountsMatch(s)
    requires before in s.games
    requires newCount == (if Lookup(s.games, a.gameId).Some?
                          then Lookup(s.games, a.gameId).value.fields.appointmentCount else 0) + 1
    ensures var g := Patch(before, None, None, SetCounter(newCount));
      var after := if before.id == a.gameId then g else before;
      after.fields.appointmentCount == Count(s.appointments + [a], ForGame(after.id))
  {
    assert CountMatches(s.appointments, before);
    CountAppend(s.appointments, a, ForGame(before.id));
    if before.id == a.gameId {
      LookupFinds(s.games, a.gameId);
    }
  }

  /** Writing `count + 1` to the appointed game matches the appended row. */
  lemma BumpKeepsCounts(s: GameStore, a: Appointment, newCount: int)
    requires UniqueIds(s.games) && CountsMatch(s)
    requires newCount == (if Lookup(s.games, a.gameId).Some?
                          then Lookup(s.games, a.gameId).value.fields.appointmentCount else 0) + 1
    ensures CountsMatch(GameStore(UpdateRows(s.games, a.gameId, None, None, SetCounter(newCount)),
                                  s.appointments + [a]))
  {
    var games := UpdateRows(s.games, a.gameId, None, None, SetCounter(newCount));
    var appts := s.appointments + [a];
    forall g | g in games ensures CountMatches(appts, g) {
      var i :| 0 <= i < |games| && games[i] == g;
      assert s.games[i] in s.games;
      BumpKeepsCount(s, a, newCount, s.games[i]);
    }
  }

  /** A successful appointment keeps every part of the invariant. */
  lemma AppointKeepsInvariant(s: GameStore, id: nat, ip: string, day: Day, insertFails: bool)
    requires Invariant(s)
    ensures Invariant(Appoint(s, id, ip, day, insertFails).0)
  {
    var a := Appointment(id, ip, day);
    var o := Appoint(s, id, ip, day, insertFails);
    if o.1.Ok? {
      assert o.0 == Appointed(s, a);
      RejectedIffTaken(s, id, ip, day, insertFails);
      AppendKeepsOnePerSlot(s.appointments, a);
      BumpKeepsCounts(s, a, NextCount(s, id));
      UpdateKeepsUniqueIds(s.games, id, None, None, SetCounter(NextCount(s, id)));
    }
  }

  /** Creating a game starts its counter at zero with no rows to count. */
  lemma CreateKeepsInvariant(s: GameStore, authed: bool, body: GameBody, activeDefault: bool)
    requires Invariant(s)
    ensures Invariant(CreateGame(s, authed, body, activeDefault).0)
  {
    if authed {
      var o := CreateGame(s, authed, body, activeDefault);
      var g := o.1.value;
      CreatedRowIsListed(s.games, g);
      CountBounds(s.appointments, ForGame(g.id));
    }
  }

  /** An admin update never writes the counter and never changes an id. */
  lemma UpdateKeepsInvariant(s: GameStore, authed: bool, id: nat, body: GameBody)
    requires Invariant(s)
    ensures Invariant(UpdateGame(s, authed, id, body).0)
  {
    if authed {
      var games := UpdateRows(s.games, id, body.sortOrder, body.isActive, Patcher(body));
      assert UpdateGame(s, authed, id, body).0 == GameStore(games, s.appointments);
      UpdateKeepsUniqueIds(s.games, id, body.sortOrder, body.isActive, Patcher(body));
      forall g | g in games ensures CountMatches(s.appointments, g) {
        var i :| 0 <= i < |games| && games[i] == g;
        var before := s.games[i];
        assert before in s.games && CountMatches(s.appointments, before);
        assert g.id == before.id && g.fields.appointmentCount == before.fields.appointmentCount;
      }
    }
  }

  /** Updating an existing game answers it with exactly the given columns
      replaced and its counter kept, and leaves what every other id finds. */
  lemma UpdateGameWritesGivenColumns(s: GameStore, k: nat, body: GameBody, other: nat)
    requires UniqueIds(s.games)
    requires k < |s.games| && other != s.games[k].id
    ensures var (s', r) := UpdateGame(s, true, s.games[k].id, body);
      var g := s.games[k];
      && r == Ok(200, Row(g.id, Keep(g.sortOrder, body.sortOrder), Keep(g.isActive, body.isActive),
                           MergeGame(g.fields, body)))
      && r.value.fields.appointmentCount == g.fields.appointmentCount
      && Lookup(s'.games, g.id) == Some(r.value)
      && Lookup(s'.games, other) == Lookup(s.games, other)
      && s'.appointments == s.appointments
  {
    var id := s.games[k].id;
    assert s.games[k] in s.games;
    LookupFinds(s.games, id);
    UpdateExisting(s.games, id, body.sortOrder, body.isActive, Patcher(body), UpdateFailed);
    UpdateKeepsOtherRows(s.games, id, body.sortOrder, body.isActive, Patcher(body), other);
  }

  /** Deleting a game leaves the other games and all appointment rows. */
  lemma DeleteKeepsInvariant(s: GameStore, authed: bool, id: nat)
    requires Invariant(s)
    ensures Invariant(DeleteGame(s, authed, id).0)
  {
    if authed {
      SelectKeepsUniqueBy(s.games, (x: Game) => x.id != id, IdOf<GameFields>);
    }
  }

  // ---------------------------------------------------------------------
  // Properties of the guard across calls

  /** After a successful appointment the same (game, origin, day) is
      rejected with 400 and nothing changes. */
  lemma SecondAppointRejected(s: GameStore, id: nat, ip: string, day: Day, f1: bool, f2: bool)
    requires Invariant(s)
    requires Appoint(s, id, ip, day, f1).1.Ok?
    ensures var s1 := Appoint(s, id, ip, day, f1).0;
      Appoint(s1, id, ip, day, f2) == (s1, Fail(400, AlreadyAppointed))
  {
    var s1 := Appoint(s, id, ip, day, f1).0;
    AppointKeepsInvariant(s, id, ip, day, f1);
    RejectedIffTaken(s1, id, ip, day, f2);
    assert s1.appointments[|s.appointments|] == Appointment(id, ip, day);
  }

  /** Slots differing in game, origin or day are independent: taking one does
      not change whether another is rejected. */
  lemma SlotsIndependent(s: GameStore, id: nat, ip: string, day: Day, f1: bool,
                         id': nat, ip': string, day': Day, f2: bool)
    requires Invariant(s)
    requires (id, ip, day) != (id', ip', day')
    ensures var s1 := Appoint(s, id, ip, day, f1).0;
      (Appoint(s1, id', ip', day', f2).1 == Fail(400, AlreadyAppointed))
      <==> (Appoint(s, id', ip', day', f2).1 == Fail(400, AlreadyAppointed))
  {
    var s1 := Appoint(s, id, ip, day, f1).0;
    AppointKeepsInvariant(s, id, ip, day, f1);
    RejectedIffTaken(s, id', ip', day', f2);
    RejectedIffTaken(s1, id', ip', day', f2);
    if Appoint(s, id, ip, day, f1).1.Ok? {
      assert Appointment(id', ip', day') in s1.appointments <==> Appointment(id', ip', day') in s.appointments;
    }
  }

  /** The counter of an existing game under the invariant. */
  function CounterOf(s: GameStore, id: nat): int
    requires Lookup(s.games, id).Some?
  {
    Lookup(s.games, id).value.fields.appointmentCount
  }

  /** A first appointment for an existing game in an untaken slot answers
      the counter plus one, and the game then shows that number. */
  lemma AppointFresh(s: GameStore, id: nat, ip: string, day: Day)
    requires Invariant(s)
    requires Lookup(s.games, id).Some?
    requires Appointment(id, ip, day) !in s.appointments
    ensures var o := Appoint(s, id, ip, day, false);
      && o.1 == Ok(200, CounterOf(s, id) + 1)
      && Invariant(o.0)
      && Lookup(o.0.games, id).Some? && CounterOf(o.0, id) == CounterOf(s, id) + 1
      && o.0.appointments == s.appointments + [Appointment(id, ip, day)]
  {
    RejectedIffTaken(s, id, ip, day, false);
    AppointKeepsInvariant(s, id, ip, day, false);
    var o := Appoint(s, id, ip, day, false);
    assert o.1.Ok?;
    var c := CounterOf(s, id);
    assert o.1.value == c + 1;
    var before := Lookup(s.games, id).value;
    var k :| 0 <= k < |s.games| && s.games[k] == before;
    var after := o.0.games[k];
    assert after == before.(fields := before.fields.(appointmentCount := c + 1));
    assert after in o.0.games;
    LookupFinds(o.0.games, id);
  }

  /** The worked scenario: an origin appoints on day `d`, again on `d`, then
      on `d'`. The replies are the counter plus one, a 400, and the counter
      plus two. */
  lemma TwoDaysCountTwice(s: GameStore, id: nat, ip: string, d: Day, d': Day)
    requires Invariant(s)
    requires Lookup(s.games, id).Some?
    requires d != d'
    requires Appointment(id, ip, d) !in s.appointments && Appointment(id, ip, d') !in s.appointments
    ensures var c := CounterOf(s, id);
      var (s1, r1) := Appoint(s, id, ip, d, false);
      var (s2, r2) := Appoint(s1, id, ip, d, false);
      var (s3, r3) := Appoint(s2, id, ip, d', false);
      && r1 == Ok(200, c + 1) && r2 == Fail(400, AlreadyAppointed) && r3 == Ok(200, c + 2)
      && Lookup(s3.games, id).Some? && CounterOf(s3, id) == c + 2
  {
    AppointFresh(s, id, ip, d);
    var s1 := Appoint(s, id, ip, d, false).0;
    SecondAppointRejected(s, id, ip, d, false, false);
    assert Appointment(id, ip, d') !in s1.appointments;
    AppointFresh(s1, id, ip, d');
  }
}
