/**
 * `Usuario` (classes/Usuario.php): the login form check, and the `usuarios`
 * table with user creation, authentication, the session it opens and the
 * current-user lookup.  `password_hash` and `password_verify` are opaque:
 * the hash is a parameter and the check a function parameter.  A failed
 * query is the parameter `dbOk = false`.
 */
module Users {
  import opened Base
  import opened Text
  import opened Session

  // ---------------------------------------------------------------------
  // validar_datos_login
  // ---------------------------------------------------------------------

  const UserRequired := "El nombre de usuario es obligatorio"
  const UserTooShort := "El nombre de usuario debe tener al menos 3 caracteres"
  const PasswordRequired := "La contraseña es obligatoria"
  const PasswordTooShort := "La contraseña debe tener al menos 6 caracteres"

  /** The error the user name gets, if any: missing first, and only then too short (in bytes). */
  function UserNameErrors(name: string): (e: seq<string>)
    ensures |e| <= 1
    ensures e == [] <==> ByteLength(name) >= 3
    ensures PhpEmpty(name) ==> e == [UserRequired]
    ensures !PhpEmpty(name) && ByteLength(name) < 3 ==> e == [UserTooShort]
  {
    if PhpEmpty(name) then [UserRequired] else if ByteLength(name) < 3 then [UserTooShort] else []
  }

  /** The error the password gets, if any: missing first, and only then too short (in bytes). */
  function PasswordErrors(password: string): (e: seq<string>)
    ensures |e| <= 1
    ensures e == [] <==> ByteLength(password) >= 6
    ensures PhpEmpty(password) ==> e == [PasswordRequired]
    ensures !PhpEmpty(password) && ByteLength(password) < 6 ==> e == [PasswordTooShort]
  {
    if PhpEmpty(password) then [PasswordRequired] else if ByteLength(password) < 6 then [PasswordTooShort] else []
  }

  /** `validar_datos_login`. */
  method ValidateLogin(name: string, password: string) returns (errors: seq<string>)
    ensures errors == UserNameErrors(name) + PasswordErrors(password)
    ensures |errors| <= 2
    ensures errors == [] <==> ByteLength(name) >= 3 && ByteLength(password) >= 6
  {
    errors := [];
    if name == "" || name == "0" {
      errors := errors + [UserRequired];
    } else if ByteLength(name) < 3 {
      errors := errors + [UserTooShort];
    }
    if password == "" || password == "0" {
      errors := errors + [PasswordRequired];
    } else if ByteLength(password) < 6 {
      errors := errors + [PasswordTooShort];
    }
  }

  /** The user-name error, when there is one, comes before the password error. */
  lemma LoginErrorOrder(name: string, password: string)
    requires ByteLength(name) < 3
    ensures var e := UserNameErrors(name) + PasswordErrors(password);
            |e| >= 1 && (e[0] == UserRequired || e[0] == UserTooShort) &&
            (ByteLength(password) < 6 <==> |e| == 2) &&
            (|e| == 2 ==> e[1] == PasswordRequired || e[1] == PasswordTooShort)
  {
  }

  /** A length counts bytes: two two-byte letters make a four-byte name, long enough. */
  lemma ByteLengthCounts()
    ensures ByteLength("ñá") == 4
    ensures UserNameErrors("ñá") == []
  {
    assert "ñá"[1..][1..] == [];
  }

  // ---------------------------------------------------------------------
  // The usuarios table
  // ---------------------------------------------------------------------

  /** One row of `usuarios`. */
  datatype User = User(id: int, name: string, fullName: string, hash: string, email: Option<string>,
                       active: bool, lastAccess: Option<int>)

  /** What `autenticar` returns: the selected columns without `password_hash`. */
  datatype AuthUser = AuthUser(id: int, name: string, fullName: string, active: bool)

  /** What `obtener_usuario_actual` returns. */
  datatype CurrentUser = CurrentUser(id: int, name: string, fullName: string, email: Option<string>, lastAccess: Option<int>)

  /** `id` is the primary key and `nombre_usuario` is unique. */
  predicate UniqueUsers(users: seq<User>) {
    forall i, j :: 0 <= i < |users| && 0 <= j < |users| && (users[i].id == users[j].id || users[i].name == users[j].name) ==> i == j
  }

  /** The first active user with this name (`WHERE nombre_usuario = ? AND activo = 1`, first row fetched). */
  function FindActiveByName(users: seq<User>, name: string): (r: Option<nat>)
    ensures r.None? <==> forall i :: 0 <= i < |users| ==> !(users[i].active && users[i].name == name)
    ensures r.Some? ==> r.value < |users| && users[r.value].active && users[r.value].name == name &&
                        forall i :: 0 <= i < r.value ==> !(users[i].active && users[i].name == name)
  {
    if users == [] then None
    else if users[0].active && users[0].name == name then Some(0)
    else match FindActiveByName(users[1..], name)
      case None => None
      case Some(i) => Some(i + 1)
  }

  /** The first active user with this id (`WHERE id = ? AND activo = 1`). */
  function FindActiveById(users: seq<User>, id: int): (r: Option<nat>)
    ensures r.None? <==> forall i :: 0 <= i < |users| ==> !(users[i].active && users[i].id == id)
    ensures r.Some? ==> r.value < |users| && users[r.value].active && users[r.value].id == id
  {
    if users == [] then None
    else if users[0].active && users[0].id == id then Some(0)
    else match FindActiveById(users[1..], id)
      case None => None
      case Some(i) => Some(i + 1)
  }

  /** The session that `crear_sesion` leaves after starting: the user's id, names and access time. */
  function LoggedIn(vars: Vars, u: AuthUser, now: int): (r: Vars)
    ensures Authenticated(r) && LastAccessKey in r
    ensures r[UserIdKey] == IntValue(u.id) && r[UserNameKey] == TextValue(u.name) && r[LastAccessKey] == IntValue(now)
  {
    assert UserIdKey != UserNameKey && UserIdKey != FullNameKey && UserIdKey != LastAccessKey;
    assert UserNameKey != FullNameKey && UserNameKey != LastAccessKey;
    vars[UserIdKey := IntValue(u.id)][UserNameKey := TextValue(u.name)][FullNameKey := TextValue(u.fullName)][LastAccessKey := IntValue(now)]
  }

  class UserTable {
    var users: seq<User>
    /** The next `AUTO_INCREMENT` value. */
    var nextId: int

    ghost predicate Valid()
      reads this
    {
      UniqueUsers(users) && forall i :: 0 <= i < |users| ==> users[i].id < nextId
    }

    constructor ()
      ensures Valid() && users == [] && nextId == 1
    {
      users := [];
      nextId := 1;
    }

    /** `existe_usuario`: a user row has this name; a failed query says no. */
    predicate Exists(name: string, dbOk: bool)
      reads this
    {
      dbOk && exists i :: 0 <= i < |users| && users[i].name == name
    }

    /** `crear_usuario`, with `hash` the `password_hash` of the password. */
    method Create(name: string, fullName: string, hash: string, email: Option<string>, dbOk: bool) returns (ok: bool)
      requires Valid()
      modifies this
      ensures Valid()
      ensures ok <==> dbOk && !old(Exists(name, true))
      ensures ok ==> users == old(users) + [User(old(nextId), name, fullName, hash, email, true, None)] && nextId == old(nextId) + 1
      ensures !ok ==> users == old(users) && nextId == old(nextId)
    {
      if Exists(name, dbOk) || !dbOk {
        return false;
      }
      var u := User(nextId, name, fullName, hash, email, true, None);
      users := users + [u];
      nextId := nextId + 1;
      ok := true;
    }

    /**
     * `autenticar`: the active user with this name whose password verifies,
     * without its hash; the user's last access becomes `now`.
     */
    method Authenticate(name: string, password: string, verify: (string, string) -> bool, now: int, dbOk: bool)
      returns (r: Option<AuthUser>)
      requires Valid()
      modifies this
      ensures Valid()
      ensures nextId == old(nextId) && |users| == |old(users)|
      ensures r.Some? <==> dbOk && FindActiveByName(old(users), name).Some? &&
                           verify(password, old(users)[FindActiveByName(old(users), name).value].hash)
      ensures r.Some? ==> var u := old(users)[FindActiveByName(old(users), name).value];
                          r.value == AuthUser(u.id, u.name, u.fullName, true) &&
                          users == seq(|old(users)|, k requires 0 <= k < |old(users)| =>
                                     if old(users)[k].id == u.id then old(users)[k].(lastAccess := Some(now)) else old(users)[k])
      ensures r.None? ==> users == old(users)
    {
      if !dbOk {
        return None;
      }
      var found := FindActiveByName(users, name);
      if found.None? {
        return None;
      }
      var u := users[found.value];
      if !verify(password, u.hash) {
        return None;
      }
      var rows := users;
      users := seq(|rows|, k requires 0 <= k < |rows| => if rows[k].id == u.id then rows[k].(lastAccess := Some(now)) else rows[k]);
      assert forall k :: 0 <= k < |rows| ==> users[k].id == rows[k].id && users[k].name == rows[k].name;
      r := Some(AuthUser(u.id, u.name, u.fullName, u.active));
    }

    /** `crear_sesion`: start the session, then record the user and the access time. */
    method CreateSession(s: Store, u: AuthUser, now: int, timeout: int)
      modifies s
      ensures s.active == AfterStart(old(s.active), old(s.vars), now, timeout).0
      ensures s.vars == LoggedIn(AfterStart(old(s.active), old(s.vars), now, timeout).1, u, now)
    {
      s.Start(now, timeout);
      ghost var started := AfterStart(old(s.active), old(s.vars), now, timeout);
      assert s.active == started.0 && s.vars == started.1;
      s.vars := s.vars[UserIdKey := IntValue(u.id)];
      s.vars := s.vars[UserNameKey := TextValue(u.name)];
      s.vars := s.vars[FullNameKey := TextValue(u.fullName)];
      s.vars := s.vars[LastAccessKey := IntValue(now)];
    }

    /** `obtener_usuario_actual`: nobody unless the session is authenticated and names an active user. */
    method Current(s: Store, now: int, timeout: int, dbOk: bool) returns (r: Option<CurrentUser>)
      modifies s
      ensures (s.active, s.vars) == AfterStart(old(s.active), old(s.vars), now, timeout)
      ensures !Authenticated(s.vars) ==> r.None?
      ensures r.Some? <==> Authenticated(s.vars) && dbOk && s.vars[UserIdKey].IntValue? &&
                           FindActiveById(users, s.vars[UserIdKey].i).Some?
      ensures r.Some? ==> var u := users[FindActiveById(users, s.vars[UserIdKey].i).value];
                          u.active && r.value == CurrentUser(u.id, u.name, u.fullName, u.email, u.lastAccess)
    {
      var authenticated := s.IsAuthenticated(now, timeout);
      if !authenticated || !dbOk || !s.vars[UserIdKey].IntValue? {
        return None;
      }
      var found := FindActiveById(users, s.vars[UserIdKey].i);
      if found.None? {
        return None;
      }
      var u := users[found.value];
      r := Some(CurrentUser(u.id, u.name, u.fullName, u.email, u.lastAccess));
    }
  }

  /** `autenticar` only ever returns an active user, and then its password verified. */
  lemma AuthenticatedIsActive(users: seq<User>, name: string, password: string, verify: (string, string) -> bool)
    requires FindActiveByName(users, name).Some?
    ensures var u := users[FindActiveByName(users, name).value];
            u.active && u.name == name
  {
  }

  /** With unique names, the user `autenticar` finds is the only one with that name. */
  lemma {:induction false} FindActiveByNameUnique(users: seq<User>, name: string, i: int)
    requires UniqueUsers(users)
    requires 0 <= i < |users| && users[i].active && users[i].name == name
    ensures FindActiveByName(users, name) == Some(i)
  {
    var r := FindActiveByName(users, name);
    assert r.Some?;
    var j := r.value;
    assert users[j].name == users[i].name;
  }

  /** After `crear_sesion` the session is authenticated; after `cerrar_sesion` it no longer is. */
  lemma SessionLifecycle(vars: Vars, u: AuthUser, now: int)
    ensures Authenticated(LoggedIn(vars, u, now))
    ensures !Authenticated(map[])
  {
  }
}
