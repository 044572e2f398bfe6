/** Administrator authentication: the bearer-token middleware and the
    role gate (backend/src/middlewares/auth.ts), and the login checks
    (backend/src/services/auth_service.ts). Token signing and verification
    and password hashing are foreign and enter as function parameters.
 */
module Auth {

  import opened Wrappers
  import opened Text
  import opened Constants
  import opened Store

  /** The payload a token carries (`req.user`). */
  datatype Claims = Claims(userId: string, email: string, rol: string)

  /** What a middleware does with a request: answer with a status and a
      message, or pass it on with the user attached. */
  datatype Gate = Reject(status: int, message: string) | Next(user: Claims)

  const BearerPrefix: string := "Bearer "
  const NoToken: string := "Token no proporcionado"
  const BadToken: string := "Token inválido o expirado"
  const AdminOnly: string := "Acceso denegado. Se requiere rol de administrador"

  /** The token following the bearer prefix, if the header has that form. */
  function BearerToken(header: Option<string>): (token: Option<string>)
    ensures token.Some? <==> header.Some? && StartsWith(header.value, BearerPrefix)
    ensures token.Some? ==> header.value == BearerPrefix + token.value
  {
    if header.None? || !StartsWith(header.value, BearerPrefix) then None
    else
      var t := header.value[|BearerPrefix|..];
      assert header.value == header.value[..|BearerPrefix|] + t;
      Some(t)
  }

  /** `"Bearer " + t` always yields `t` back. */
  lemma BearerRoundTrip(t: string)
    ensures BearerToken(Some(BearerPrefix + t)) == Some(t)
  {
    assert (BearerPrefix + t)[..|BearerPrefix|] == BearerPrefix;
    assert (BearerPrefix + t)[|BearerPrefix|..] == t;
  }

  /** `authMiddleware`: `verify` is `verifyToken`, answering `None` where
      it throws. */
  function Authenticate(header: Option<string>, verify: string -> Option<Claims>): (g: Gate)
    ensures BearerToken(header).None? ==> g == Reject(401, NoToken)
    ensures BearerToken(header).Some? && verify(BearerToken(header).value).None? ==> g == Reject(401, BadToken)
    ensures g.Next? <==> BearerToken(header).Some? && verify(BearerToken(header).value).Some?
    ensures g.Next? ==> g.user == verify(BearerToken(header).value).value
    ensures g.Reject? ==> g.status == 401
  {
    match BearerToken(header)
    case None => Reject(401, NoToken)
    case Some(token) =>
      match verify(token)
      case None => Reject(401, BadToken)
      case Some(claims) => Next(claims)
  }

  /** A header with any other scheme, including a lower-case `bearer`, is
      rejected before the token is looked at. */
  lemma OtherSchemeRejected(header: string, verify: string -> Option<Claims>)
    requires |header| >= 7 && header[0] == 'b'
    ensures Authenticate(Some(header), verify) == Reject(401, NoToken)
  {
    assert header[..|BearerPrefix|][0] == 'b';
  }

  /** `isAdmin`, run after `authMiddleware`. */
  function RequireAdmin(user: Option<Claims>): (g: Gate)
    ensures g.Next? <==> user.Some? && user.value.rol == Admin
    ensures g.Next? ==> g.user == user.value
    ensures g.Reject? ==> g == Reject(403, AdminOnly)
  {
    if user.Some? && user.value.rol == Admin then Next(user.value) else Reject(403, AdminOnly)
  }

  /** The user object `login` returns. */
  datatype AuthUser = AuthUser(id: string, email: Option<string>, name: string, role: string)

  datatype Session = Session(token: string, user: AuthUser)

  const BadCredentials: string := "Credenciales incorrectas"
  const Inactive: string := "Usuario inactivo"
  const AdminLoginOnly: string := "Solo los administradores pueden iniciar sesión"
  const NoPassword: string := "Usuario sin contraseña configurada"

  /** `usuario.hashPassword` is truthy: present and not the empty string. */
  predicate HasPassword(u: User) {
    u.passwordHash.Some? && u.passwordHash.value != ""
  }

  /** `login(email, password)`. `found` is the user `findUnique` returns for
      the email; `matches(password, hash)` is `bcrypt.compare`; `sign` is
      `generateToken`. */
  function Login(email: string, password: string, found: Option<User>,
                 matches: (string, string) -> bool, sign: Claims -> string): (r: Result<Session>)
    requires found.Some? ==> found.value.email == Some(email)
    ensures found.None? ==> r == Err(BadCredentials)
    ensures found.Some? && !found.value.active ==> r == Err(Inactive)
    ensures found.Some? && found.value.active && found.value.rol != Admin ==> r == Err(AdminLoginOnly)
    ensures found.Some? && found.value.active && found.value.rol == Admin ==>
              (r == Err(NoPassword) <==> !HasPassword(found.value))
    ensures (&& found.Some? && found.value.active && found.value.rol == Admin && HasPassword(found.value)
             && !matches(password, found.value.passwordHash.value)) ==> r == Err(BadCredentials)
    ensures r.Ok? <==> && found.Some? && found.value.active && found.value.rol == Admin
                       && HasPassword(found.value) && matches(password, found.value.passwordHash.value)
    ensures r.Ok? ==> && r.value.user == AuthUser(found.value.id, Some(email), found.value.name, Admin)
                      && r.value.token == sign(Claims(found.value.id, email, Admin))
  {
    match found
    case None => Err(BadCredentials)
    case Some(u) =>
      if !u.active then Err(Inactive)
      else if u.rol != Admin then Err(AdminLoginOnly)
      else if !HasPassword(u) then Err(NoPassword)
      else if !matches(password, u.passwordHash.value) then Err(BadCredentials)
      else Ok(Session(sign(Claims(u.id, email, u.rol)), AuthUser(u.id, u.email, u.name, u.rol)))
  }

  /** An empty stored hash counts as no password: the login stops before
      `bcrypt.compare`, whatever the password and the comparison. */
  lemma EmptyHashIsNoPassword(email: string, password: string, u: User,
                              matches: (string, string) -> bool, sign: Claims -> string)
    requires u.email == Some(email) && u.active && u.rol == Admin && u.passwordHash == Some("")
    ensures Login(email, password, Some(u), matches, sign) == Err(NoPassword)
  {
  }

  /** Whatever the password, a non-administrator never receives a token,
      and the answer does not reveal whether the password was right. */
  lemma NonAdminNeverLogsIn(email: string, p1: string, p2: string, found: Option<User>,
                            matches: (string, string) -> bool, sign: Claims -> string)
    requires found.Some? ==> found.value.email == Some(email)
    requires found.Some? && found.value.rol != Admin
    ensures Login(email, p1, found, matches, sign).Err?
    ensures Login(email, p1, found, matches, sign) == Login(email, p2, found, matches, sign)
  {
  }

  /** An unknown email and a wrong password give the same answer. */
  lemma UnknownEmailLikeWrongPassword(email: string, password: string, u: User,
                                      matches: (string, string) -> bool, sign: Claims -> string)
    requires u.email == Some(email) && u.active && u.rol == Admin && HasPassword(u)
    requires !matches(password, u.passwordHash.value)
    ensures Login(email, password, None, matches, sign) == Login(email, password, Some(u), matches, sign)
  {
  }

  /** A token obtained at login opens both gates when the verifier returns
      the payload it signed. */
  lemma LoginTokenPassesGates(email: string, password: string, found: Option<User>,
                              matches: (string, string) -> bool, sign: Claims -> string,
                              verify: string -> Option<Claims>)
    requires found.Some? ==> found.value.email == Some(email)
    requires Login(email, password, found, matches, sign).Ok?
    requires forall c :: verify(sign(c)) == Some(c)
    ensures var token := Login(email, password, found, matches, sign).value.token;
            var g := Authenticate(Some(BearerPrefix + token), verify);
            g.Next? && RequireAdmin(Some(g.user)).Next?
  {
    var token := Login(email, password, found, matches, sign).value.token;
    BearerRoundTrip(token);
  }
}
