/** The credential side of the server: the seeded user table, the lookup
    by email, the bearer-token gate in front of the protected routes and the
    login route. Password hashing, password comparison and token signing
    and verification belong to external libraries and are parameters here. */
module Auth {
  import opened Common
  import Text
  import Lookup

  /** A row of the user table; `password` holds the password's hash. */
  datatype User = User(id: int, email: string, password: string, role: string)

  /** What a token carries and what the gate attaches to the request. */
  datatype Claims = Claims(id: int, role: string)

  /** The body of a successful login response. */
  datatype Session = Session(token: string, role: string)

  const AccessDenied := Failure(401, "Access denied")
  const InvalidToken := Failure(403, "Invalid token")
  const InvalidCredentials := Failure(400, "Invalid credentials")

  const AdminEmail := "admin@example.com"
  const UserEmail := "user@example.com"

  /** The users the server starts with; `hash` stands for the salted
      password hash of the hashing library. */
  function InitialUsers(hash: string -> string): (users: seq<User>)
    ensures |users| == 2
    ensures FindUserByEmail(users, AdminEmail) == Some(User(1, AdminEmail, hash("admin123"), "admin"))
    ensures FindUserByEmail(users, UserEmail) == Some(User(2, UserEmail, hash("user123"), "user"))
    ensures forall email :: email != AdminEmail && email != UserEmail ==> FindUserByEmail(users, email) == None
  {
    var users := [ User(1, AdminEmail, hash("admin123"), "admin"),
                   User(2, UserEmail, hash("user123"), "user") ];
    assert AdminEmail[0] != UserEmail[0];
    assert users[1].email == UserEmail && users[0].email != UserEmail;
    users
  }

  predicate HasEmail(email: string, u: User) {
    u.email == email
  }

  /** `users[i]` is the first user whose email is `email`. */
  predicate IsFirstWithEmail(users: seq<User>, email: string, i: int) {
    0 <= i < |users| && users[i].email == email &&
    forall j :: 0 <= j < i ==> users[j].email != email
  }

  /** The first user with exactly this email, or none. */
  function FindUserByEmail(users: seq<User>, email: string): (r: Option<User>)
    ensures r.None? <==> forall j :: 0 <= j < |users| ==> users[j].email != email
    ensures r.Some? ==> exists i :: IsFirstWithEmail(users, email, i) && users[i] == r.value
  {
    match Lookup.FindIndex(users, u => HasEmail(email, u))
    case None => None
    case Some(i) => Some(users[i])
  }

  /** The token is the second space-separated piece of the Authorization
      header; an absent header, a header with one piece and an empty second
      piece all count as no token. */
  function ExtractToken(header: Option<string>): (token: Option<string>)
    ensures token.Some? ==> header.Some? && token.value != [] && ' ' !in token.value
  {
    if header.None? then None
    else
      var parts := Text.Split(header.value, ' ');
      if |parts| < 2 || parts[1] == [] then None else Some(parts[1])
  }

  /** `header` reads `scheme token rest`: a first piece without spaces,
      one space, the token, and then either nothing or a further space. */
  predicate IsBearerShape(header: string, scheme: string, token: string, rest: string) {
    ' ' !in scheme && ' ' !in token && token != [] &&
    (rest == [] || rest[0] == ' ') &&
    header == scheme + ([' '] + (token + rest))
  }

  /** `Scheme token` (optionally followed by more space-separated text)
      yields `token`. */
  lemma TokenOfBearerHeader(header: string, scheme: string, token: string, rest: string)
    requires IsBearerShape(header, scheme, token, rest)
    ensures ExtractToken(Some(header)) == Some(token)
  {
    var h := header;
    Text.SplitOfPrefix(scheme, [' '] + (token + rest), ' ');
    Text.SplitAfterSeparator(token + rest, ' ');
    Text.SplitOfPrefix(token, rest, ' ');
    if rest != [] {
      assert rest == [' '] + rest[1..];
      Text.SplitAfterSeparator(rest[1..], ' ');
    }
    var parts := Text.Split(h, ' ');
    assert parts[1] == token + Text.Split(rest, ' ')[0];
    assert Text.Split(rest, ' ')[0] == [];
    assert token + [] == token;
  }

  /** Conversely, a token is only ever found as the piece after the first
      space of the header. */
  lemma {:induction false} TokenShape(header: string, token: string)
    requires ExtractToken(Some(header)) == Some(token)
    ensures exists scheme, rest :: IsBearerShape(header, scheme, token, rest)
  {
    var parts := Text.Split(header, ' ');
    Text.JoinOfSplit(header, ' ');
    var rest := AfterSecondPiece(parts);
    JoinFirstTwo(parts);
    var scheme := parts[0];
    assert IsBearerShape(header, scheme, token, rest);
  }

  /** What a join holds after its second piece. */
  function AfterSecondPiece(parts: seq<string>): (rest: string)
    requires |parts| >= 2
    ensures rest == [] || rest[0] == ' '
  {
    if |parts| == 2 then [] else [' '] + Text.Join(parts[2..], ' ')
  }

  lemma JoinFirstTwo(parts: seq<string>)
    requires |parts| >= 2
    ensures Text.Join(parts, ' ') == parts[0] + ([' '] + (parts[1] + AfterSecondPiece(parts)))
  {
    var tail := parts[1..];
    assert tail[0] == parts[1];
    if |parts| == 2 {
      assert Text.Join(tail, ' ') == tail[0] == parts[1] + [];
    } else {
      assert tail[1..] == parts[2..];
    }
  }

  /** The gate in front of the protected routes: 401 without a token,
      403 when `verify` (signature and expiry check) rejects it. */
  function Authenticate(header: Option<string>, verify: string -> Option<Claims>): (r: Result<Claims>)
    ensures r == Err(AccessDenied) <==> ExtractToken(header).None?
    ensures r == Err(InvalidToken) <==>
      ExtractToken(header).Some? && verify(ExtractToken(header).value).None?
    ensures r.Ok? ==> ExtractToken(header).Some? && verify(ExtractToken(header).value) == Some(r.value)
    ensures ExtractToken(header).Some? && verify(ExtractToken(header).value).Some? ==>
      r == Ok(verify(ExtractToken(header).value).value)
  {
    match ExtractToken(header)
    case None => Err(AccessDenied)
    case Some(token) =>
      match verify(token)
      case None => Err(InvalidToken)
      case Some(claims) => Ok(claims)
  }

  /** Without a token the verifier is never consulted. */
  lemma MissingTokenSkipsVerification(header: Option<string>, v1: string -> Option<Claims>, v2: string -> Option<Claims>)
    requires ExtractToken(header).None?
    ensures Authenticate(header, v1) == Authenticate(header, v2) == Err(AccessDenied)
  {
  }

  /** The login route. `compare` stands for the password-hash comparison
      and `sign` for token issuance over the user's id and role. */
  function Login(users: seq<User>, email: string, password: string,
                 compare: (string, string) -> bool, sign: Claims -> string): (r: Result<Session>)
    ensures r.Err? ==> r.failure == InvalidCredentials
    ensures r.Ok? <==> exists i :: IsFirstWithEmail(users, email, i) && compare(password, users[i].password)
    ensures r.Ok? ==> exists i :: IsFirstWithEmail(users, email, i) &&
                                  r.value == Session(sign(Claims(users[i].id, users[i].role)), users[i].role)
  {
    match FindUserByEmail(users, email)
    case None => Err(InvalidCredentials)
    case Some(user) =>
      if !compare(password, user.password) then Err(InvalidCredentials)
      else Ok(Session(sign(Claims(user.id, user.role)), user.role))
  }

  /** An unknown email is refused whatever the password and whatever the
      comparison would say: the password is not checked. */
  lemma UnknownEmailIgnoresPassword(users: seq<User>, email: string, p1: string, p2: string,
                                    c1: (string, string) -> bool, c2: (string, string) -> bool,
                                    s1: Claims -> string, s2: Claims -> string)
    requires FindUserByEmail(users, email).None?
    ensures Login(users, email, p1, c1, s1) == Login(users, email, p2, c2, s2) == Err(InvalidCredentials)
  {
  }

  /** The seeded admin account logs in exactly when the password matches
      the hash of its seeded password, and receives the admin role. */
  lemma SeededAdminLogin(hash: string -> string, password: string,
                         compare: (string, string) -> bool, sign: Claims -> string)
    ensures Login(InitialUsers(hash), AdminEmail, password, compare, sign) ==
      if compare(password, hash("admin123")) then Ok(Session(sign(Claims(1, "admin")), "admin"))
      else Err(InvalidCredentials)
  {
  }
}
