/** The auth router: the login decision and the unguarded `init` route that
    creates the first admin or resets an admin's password. Password hashing
    and checking (bcrypt) and token signing (JWT) are parameters: `hash`
    stands for one salted hash, `verify` for the hash comparison, `sign` for
    signing a payload with the server secret. */
module Auth {
  import opened Common
  import opened Query

  datatype Admin = Admin(id: nat, username: string, passwordHash: string, lastLogin: Option<int>)

  /** The signed payload and its lifetime. */
  datatype Claims = Claims(id: nat, username: string, expiresIn: string)

  /** The login answer: the token and the admin's id and name, nothing else. */
  datatype Session = Session(token: string, id: nat, username: string)

  /** The `init` answers: the reset message with the rows it changed, or the
      inserted row. */
  datatype InitReply = PasswordReset(message: string, rows: seq<Admin>) | Created(admin: Admin)

  const BadCredentials: string := "用户名或密码错误"
  const ResetMessage: string := "管理员密码已重置"
  const TokenLifetime: string := "24h"

  function NameOf(a: Admin): string { a.username }

  ghost predicate UniqueNames(t: seq<Admin>) {
    UniqueBy(t, NameOf)
  }

  /** The admin a login names, when exactly one row has the name. */
  function FindAdmin(t: seq<Admin>, username: string): Option<Admin> {
    Single(t, KeyIs(NameOf, username))
  }

  /** `POST /login`: 401 with one and the same message when the name finds no
      single admin or the password does not match; otherwise a token for
      {id, username} valid 24 hours, the admin's `last_login` set to `now`,
      and only id and name in the answer. */
  function Login(t: seq<Admin>, username: string, password: string, now: int,
                 verify: (string, string) -> bool, sign: Claims -> string): (o: (seq<Admin>, Reply<Session>))
    ensures o.1.Fail? ==> o.1 == Fail(401, BadCredentials) && o.0 == t
    ensures !o.1.Denied?
    ensures o.1.Ok? <==> FindAdmin(t, username).Some? && verify(password, FindAdmin(t, username).value.passwordHash)
    ensures o.1.Ok? ==> var a := FindAdmin(t, username).value;
      && o.1 == Ok(200, Session(sign(Claims(a.id, a.username, TokenLifetime)), a.id, a.username))
      && |o.0| == |t|
      && (forall i :: 0 <= i < |t| ==> o.0[i] == if t[i].id == a.id then t[i].(lastLogin := Some(now)) else t[i])
  {
    match FindAdmin(t, username)
    case None => (t, Fail(401, BadCredentials))
    case Some(a) =>
      if !verify(password, a.passwordHash) then (t, Fail(401, BadCredentials))
      else
        var token := sign(Claims(a.id, a.username, TokenLifetime));
        var t' := seq(|t|, i requires 0 <= i < |t| => if t[i].id == a.id then t[i].(lastLogin := Some(now)) else t[i]);
        (t', Ok(200, Session(token, a.id, a.username)))
  }

  function NewAdminId(t: seq<Admin>): (n: nat)
    ensures forall a :: a in t ==> a.id < n
  {
    FreshKey(t, (a: Admin) => a.id)
  }

  /** `update({ password_hash }).eq('username', username)`. */
  function ResetRows(t: seq<Admin>, username: string, h: string): (r: seq<Admin>)
    ensures |r| == |t|
    ensures forall i :: 0 <= i < |t| ==> r[i] == if t[i].username == username then t[i].(passwordHash := h) else t[i]
  {
    seq(|t|, i requires 0 <= i < |t| => if t[i].username == username then t[i].(passwordHash := h) else t[i])
  }

  /** `POST /init`, open to any caller. With admins present: every admin of
      that name gets the new hash, nothing is inserted, and the reset message
      comes back even when no admin has the name. With none: a first admin
      is inserted. */
  function Init(t: seq<Admin>, username: string, password: string, hash: string -> string)
    : (o: (seq<Admin>, Reply<InitReply>))
    ensures o.1.Ok? && o.1.status == 200
    ensures |t| > 0 ==> o.0 == ResetRows(t, username, hash(password))
    ensures |t| > 0 ==> o.1.value.PasswordReset? && o.1.value.message == ResetMessage
    ensures |t| > 0 ==> forall a :: a in o.1.value.rows <==> a in o.0 && a.username == username
    ensures |t| == 0 ==> o.1.value.Created? && o.0 == [o.1.value.admin]
    ensures |t| == 0 ==> var a := o.1.value.admin;
      a.username == username && a.passwordHash == hash(password) && a.lastLogin.None?
  {
    if |t| > 0 then
      var t' := ResetRows(t, username, hash(password));
      var rows := Select(t', KeyIs(NameOf, username));
      (t', Ok(200, PasswordReset(ResetMessage, rows)))
    else
      var a := Admin(NewAdminId(t), username, hash(password), None);
      ([a], Ok(200, Created(a)))
  }

  /** An unknown name and a wrong password get the same answer, so a caller
      cannot tell which names exist. */
  lemma FailuresIndistinguishable(t: seq<Admin>, unknown: string, known: string, wrong: string, now: int,
                                  verify: (string, string) -> bool, sign: Claims -> string)
    requires UniqueNames(t)
    requires forall a :: a in t ==> a.username != unknown
    requires exists a :: a in t && a.username == known && !verify(wrong, a.passwordHash)
    ensures Login(t, unknown, wrong, now, verify, sign) == Login(t, known, wrong, now, verify, sign)
    ensures Login(t, unknown, wrong, now, verify, sign) == (t, Fail(401, BadCredentials))
  {
    FindByKey(t, NameOf, unknown);
    FindByKey(t, NameOf, known);
  }

  /** Under unique names, a login succeeds exactly when an admin has the name
      and the password matches that admin's hash. */
  lemma LoginSucceedsIff(t: seq<Admin>, username: string, password: string, now: int,
                         verify: (string, string) -> bool, sign: Claims -> string)
    requires UniqueNames(t)
    ensures Login(t, username, password, now, verify, sign).1.Ok?
            <==> exists a :: a in t && a.username == username && verify(password, a.passwordHash)
  {
    FindByKey(t, NameOf, username);
  }

  /** A first admin made by `init` can log in with the password it was made
      with, given that the hash check accepts a password against its own
      hash. */
  lemma InitThenLogin(username: string, password: string, now: int, hash: string -> string,
                      verify: (string, string) -> bool, sign: Claims -> string)
    requires verify(password, hash(password))
    ensures var (t, r) := Init([], username, password, hash);
      && r.value.Created?
      && Login(t, username, password, now, verify, sign).1
         == Ok(200, Session(sign(Claims(r.value.admin.id, username, TokenLifetime)), r.value.admin.id, username))
  {
    var (t, r) := Init([], username, password, hash);
    FindByKey(t, NameOf, username);
    assert t[0] in t;
  }

  /** After a reset the admin logs in with the new password, and an old
      password the new hash rejects no longer works. */
  lemma ResetThenLogin(t: seq<Admin>, username: string, password: string, previous: string, now: int,
                       hash: string -> string, verify: (string, string) -> bool, sign: Claims -> string)
    requires UniqueNames(t)
    requires exists a :: a in t && a.username == username
    requires verify(password, hash(password)) && !verify(previous, hash(password))
    ensures var t' := Init(t, username, password, hash).0;
      && Login(t', username, password, now, verify, sign).1.Ok?
      && Login(t', username, previous, now, verify, sign).1 == Fail(401, BadCredentials)
  {
    var a :| a in t && a.username == username;
    var i :| 0 <= i < |t| && t[i] == a;
    var h := hash(password);
    var t' := ResetRows(t, username, h);
    assert Init(t, username, password, hash).0 == t';
    var b := t'[i];
    assert FindAdmin(t', username) == Some(b) by {
      ResetKeepsNames(t, username, h);
      assert b in t' && b.username == username;
      FindByKey(t', NameOf, username);
    }
    assert b.passwordHash == h;
  }

  /** A reset changes hashes only, so names stay unique. */
  lemma ResetKeepsNames(t: seq<Admin>, username: string, h: string)
    requires UniqueNames(t)
    ensures UniqueNames(ResetRows(t, username, h))
  {
    var t' := ResetRows(t, username, h);
    assert forall i :: 0 <= i < |t| ==> t'[i].username == t[i].username;
  }

  /** `init` for a name no admin has still answers the reset message, with no
      rows, and changes nothing. */
  lemma ResetOfUnknownNameSucceeds(t: seq<Admin>, username: string, password: string, hash: string -> string)
    requires |t| > 0
    requires forall a :: a in t ==> a.username != username
    ensures Init(t, username, password, hash) == (t, Ok(200, PasswordReset(ResetMessage, [])))
  {
    var t' := Init(t, username, password, hash).0;
    assert t' == t;
    CountBounds(t', KeyIs(NameOf, username));
  }
}
