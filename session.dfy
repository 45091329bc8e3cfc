/**
 * The session rules of `includes/functions.php`: `$_SESSION` as a map from
 * key to value, with the start-up check, the inactivity timeout, logout, the
 * CSRF token and the "authenticated" test.  The clock (`time()`) and the
 * freshly drawn token (`bin2hex(random_bytes(32))`) are parameters;
 * `SESSION_TIMEOUT` is the parameter `timeout`.
 */
module Session {

  /** The kinds of value the application stores in `$_SESSION`. */
  datatype SessionValue = IntValue(i: int) | TextValue(t: string) | BoolValue(b: bool)

  type Vars = map<string, SessionValue>

  const LastAccessKey := "ultimo_acceso"
  const UserIdKey := "usuario_id"
  const UserNameKey := "usuario_nombre"
  const FullNameKey := "usuario_nombre_completo"
  const CsrfKey := "csrf_token"
  const RegeneratedKey := "regenerated"
  const SuccessKey := "mensaje_exito"

  // ---------------------------------------------------------------------
  // The rules, on values
  // ---------------------------------------------------------------------

  /** `isset($_SESSION['ultimo_acceso']) && time() - $_SESSION['ultimo_acceso'] > SESSION_TIMEOUT`. */
  predicate Expired(vars: Vars, now: int, timeout: int) {
    LastAccessKey in vars && vars[LastAccessKey].IntValue? && now - vars[LastAccessKey].i > timeout
  }

  /** `usuario_autenticado`: both the user id and the user name are set. */
  predicate Authenticated(vars: Vars) {
    UserIdKey in vars && UserNameKey in vars
  }

  /** `validar_csrf($token)`: a token is stored and it is exactly `token`. */
  predicate CsrfValid(vars: Vars, token: string) {
    CsrfKey in vars && vars[CsrfKey] == TextValue(token)
  }

  /** The session after `verificar_timeout_sesion`, flag `active` first. */
  function AfterTimeoutCheck(vars: Vars, now: int, timeout: int): (r: (bool, Vars))
    ensures Expired(vars, now, timeout) ==> r == (false, map[])
    ensures !Expired(vars, now, timeout) ==>
              r.0 && r.1.Keys == vars.Keys + {LastAccessKey} && r.1[LastAccessKey] == IntValue(now) &&
              forall k :: k in vars && k != LastAccessKey ==> r.1[k] == vars[k]
  {
    if Expired(vars, now, timeout) then (false, map[]) else (true, vars[LastAccessKey := IntValue(now)])
  }

  /** The session after `iniciar_sesion_segura`: a started session is left alone. */
  function AfterStart(active: bool, vars: Vars, now: int, timeout: int): (r: (bool, Vars))
    ensures active ==> r == (active, vars)
  {
    if active then (active, vars)
    else
      var marked := if RegeneratedKey in vars then vars else vars[RegeneratedKey := BoolValue(true)];
      AfterTimeoutCheck(marked, now, timeout)
  }

  /** `generar_csrf`: store the newly drawn token only when none is stored. */
  function WithCsrf(vars: Vars, drawn: string): (r: Vars)
    ensures CsrfKey in r && r.Keys == vars.Keys + {CsrfKey}
    ensures CsrfKey in vars ==> r == vars
    ensures CsrfKey !in vars ==> r[CsrfKey] == TextValue(drawn) && forall k :: k in vars ==> r[k] == vars[k]
  {
    if CsrfKey in vars then vars else vars[CsrfKey := TextValue(drawn)]
  }

  // ---------------------------------------------------------------------
  // Properties
  // ---------------------------------------------------------------------

  /** Exactly `SESSION_TIMEOUT` seconds of inactivity is still within the session; one more second is not. */
  lemma TimeoutBoundary(vars: Vars, last: int, timeout: int)
    requires LastAccessKey in vars && vars[LastAccessKey] == IntValue(last)
    ensures !Expired(vars, last + timeout, timeout)
    ensures Expired(vars, last + timeout + 1, timeout)
  {
  }

  /**
   * Starting an expired session logs the user out and ends the session; a
   * session that has not expired keeps every entry and refreshes the access time.
   */
  lemma StartExpired(vars: Vars, now: int, timeout: int)
    requires Expired(vars, now, timeout)
    ensures AfterStart(false, vars, now, timeout) == (false, map[])
    ensures !Authenticated(AfterStart(false, vars, now, timeout).1)
  {
    var marked := if RegeneratedKey in vars then vars else vars[RegeneratedKey := BoolValue(true)];
    assert marked[LastAccessKey] == vars[LastAccessKey];
  }

  lemma StartFresh(vars: Vars, now: int, timeout: int)
    requires !Expired(vars, now, timeout)
    ensures var r := AfterStart(false, vars, now, timeout);
            r.0 && r.1[LastAccessKey] == IntValue(now) && RegeneratedKey in r.1 &&
            (Authenticated(r.1) <==> Authenticated(vars)) &&
            forall k :: k in vars && k != LastAccessKey ==> k in r.1 && r.1[k] == vars[k]
  {
    var marked := if RegeneratedKey in vars then vars else vars[RegeneratedKey := BoolValue(true)];
    assert !Expired(marked, now, timeout) by {
      if LastAccessKey in vars {
        assert marked[LastAccessKey] == vars[LastAccessKey];
      }
    }
  }

  /** Once a session expired, the next start opens an empty one again, which nobody is logged into. */
  lemma RestartAfterExpiry(vars: Vars, now: int, later: int, timeout: int)
    requires Expired(vars, now, timeout)
    ensures var first := AfterStart(false, vars, now, timeout);
            AfterStart(first.0, first.1, later, timeout) ==
              (true, map[RegeneratedKey := BoolValue(true), LastAccessKey := IntValue(later)])
  {
    StartExpired(vars, now, timeout);
  }

  /** The token `generar_csrf` returns validates, and asking again returns the same token. */
  lemma CsrfRoundTrip(vars: Vars, drawn: string, other: string)
    requires CsrfKey in vars ==> vars[CsrfKey].TextValue?
    ensures var r := WithCsrf(vars, drawn);
            CsrfValid(r, r[CsrfKey].t) && WithCsrf(r, other) == r
    ensures CsrfKey !in vars ==> CsrfValid(WithCsrf(vars, drawn), drawn)
    ensures forall t :: CsrfValid(WithCsrf(vars, drawn), t) <==> t == WithCsrf(vars, drawn)[CsrfKey].t
  {
  }

  // ---------------------------------------------------------------------
  // The session object
  // ---------------------------------------------------------------------

  /** The PHP session of one request: whether it is started, and `$_SESSION`. */
  class Store {
    var active: bool
    var vars: Vars

    /** A session saved by an earlier request, not yet started in this one. */
    constructor (saved: Vars)
      ensures !active && vars == saved
    {
      active := false;
      vars := saved;
    }

    /** `iniciar_sesion_segura`. */
    method Start(now: int, timeout: int)
      modifies this
      ensures (active, vars) == AfterStart(old(active), old(vars), now, timeout)
    {
      if !active {
        active := true;
        if RegeneratedKey !in vars {
          vars := vars[RegeneratedKey := BoolValue(true)];
        }
        VerifyTimeout(now, timeout);
      }
    }

    /** `verificar_timeout_sesion`, called on a started session; the `cerrar_sesion` it calls then starts nothing. */
    method VerifyTimeout(now: int, timeout: int)
      requires active
      modifies this
      ensures (active, vars) == AfterTimeoutCheck(old(vars), now, timeout)
    {
      if LastAccessKey in vars && vars[LastAccessKey].IntValue? && now - vars[LastAccessKey].i > timeout {
        Destroy();
        return;
      }
      vars := vars[LastAccessKey := IntValue(now)];
    }

    /** `$_SESSION = []` and `session_destroy()`. */
    method Destroy()
      modifies this
      ensures !active && vars == map[]
    {
      vars := map[];
      active := false;
    }

    /** `cerrar_sesion`. */
    method Close(now: int, timeout: int)
      modifies this
      ensures !active && vars == map[]
    {
      Start(now, timeout);
      Destroy();
    }

    /** `usuario_autenticado`. */
    method IsAuthenticated(now: int, timeout: int) returns (b: bool)
      modifies this
      ensures (active, vars) == AfterStart(old(active), old(vars), now, timeout)
      ensures b == Authenticated(vars)
    {
      Start(now, timeout);
      b := UserIdKey in vars && UserNameKey in vars;
    }

    /** `validar_csrf($token)`. */
    method ValidateCsrf(token: string, now: int, timeout: int) returns (ok: bool)
      modifies this
      ensures (active, vars) == AfterStart(old(active), old(vars), now, timeout)
      ensures ok == CsrfValid(vars, token)
    {
      Start(now, timeout);
      ok := CsrfKey in vars && vars[CsrfKey] == TextValue(token);
    }

    /** `generar_csrf`, with `drawn` the token it would draw from `random_bytes`. */
    method GenerateCsrf(drawn: string, now: int, timeout: int) returns (token: SessionValue)
      modifies this
      ensures active == AfterStart(old(active), old(vars), now, timeout).0
      ensures vars == WithCsrf(AfterStart(old(active), old(vars), now, timeout).1, drawn)
      ensures token == vars[CsrfKey]
    {
      Start(now, timeout);
      if CsrfKey !in vars {
        vars := vars[CsrfKey := TextValue(drawn)];
      }
      token := vars[CsrfKey];
    }
  }
}
