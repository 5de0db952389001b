/**
 * The authentication endpoints. Sign-up checks the username, then the email, against
 * the user table and saves one new user with an encoded password; sign-in hands the
 * credentials to the authentication manager and projects the authenticated principal
 * and a freshly generated token into the response.
 */
module Auth {
  import opened Optional
  import opened UserStore

  const UsernameTakenMessage := "Error: Username is already taken!"
  const EmailInUseMessage := "Error: Email is already in use!"
  const RegisteredMessage := "User registered successfully!"

  /** The role reported for a principal that has no authorities at all. */
  const DefaultRole := "ROLE_MEMBER"

  datatype SignupRequest = SignupRequest(username: string, email: string, password: string)

  datatype LoginRequest = LoginRequest(username: string, password: string)

  /** The authenticated principal: the user's id, names, encoded password and granted authorities, in order. */
  datatype Principal = Principal(id: int, username: string, email: string, password: string, authorities: seq<string>)

  /** The body of a successful sign-in. */
  datatype JwtResponse = JwtResponse(accessToken: string, id: int, username: string, email: string, role: string)

  /** Sign-in answers 200 with a JwtResponse, or 401 when the authentication manager rejects the credentials. */
  datatype SignInResult = SignedIn(response: JwtResponse) | BadCredentials

  /** Sign-up answers 200 or 400, each with a message and nothing else. */
  datatype MessageResponse = Success(message: string) | BadRequest(message: string)

  /** The role a sign-in reports: the principal's first authority, or the default when it has none. */
  function FirstAuthority(authorities: seq<string>): (role: string)
    ensures role in authorities || (authorities == [] && role == DefaultRole)
    ensures authorities != [] ==> role == authorities[0]
  {
    if authorities == [] then DefaultRole else authorities[0]
  }

  /**
   * The outcome of one sign-up against `table`: the username is checked first and a
   * taken one is reported whatever the email; a free username with a taken email is
   * reported next; either refusal leaves the table as it was. Otherwise exactly one
   * user is added, under the next key, carrying the encoded password.
   */
  function Register(table: UserTable, req: SignupRequest, encode: string -> string): (r: (MessageResponse, UserTable))
    requires table.Valid()
    ensures r.1.Valid()
    ensures table.ExistsByUsername(req.username) ==> r == (BadRequest(UsernameTakenMessage), table)
    ensures !table.ExistsByUsername(req.username) && table.ExistsByEmail(req.email) ==>
              r == (BadRequest(EmailInUseMessage), table)
    ensures r.0.Success? <==> !table.ExistsByUsername(req.username) && !table.ExistsByEmail(req.email)
    ensures r.0.Success? ==>
              && r.0.message == RegisteredMessage
              && r.1.users.Keys == table.users.Keys + {table.nextId}
              && table.nextId !in table.users
              && r.1.users[table.nextId] == User(req.username, req.email, encode(req.password))
              && (forall k :: k in table.users ==> r.1.users[k] == table.users[k])
              && |r.1.users| == |table.users| + 1
  {
    if table.ExistsByUsername(req.username) then
      (BadRequest(UsernameTakenMessage), table)
    else if table.ExistsByEmail(req.email) then
      (BadRequest(EmailInUseMessage), table)
    else
      (Success(RegisteredMessage), table.Save(User(req.username, req.email, encode(req.password))))
  }

  /** A sign-up keeps usernames and emails unique. */
  lemma RegisterPreservesUniqueness(table: UserTable, req: SignupRequest, encode: string -> string)
    requires table.Valid() && Unique(table.users)
    ensures Unique(Register(table, req, encode).1.users)
  {
  }

  /** Running the sign-ups `reqs` one after another. */
  ghost function RegisterAll(table: UserTable, reqs: seq<SignupRequest>, encode: string -> string): (r: UserTable)
    requires table.Valid()
    ensures r.Valid()
    decreases |reqs|
  {
    if reqs == [] then table
    else RegisterAll(Register(table, reqs[0], encode).1, reqs[1..], encode)
  }

  /** However many sign-ups run, one after another, usernames and emails stay unique. */
  lemma {:induction false} RegistrationsPreserveUniqueness(table: UserTable, reqs: seq<SignupRequest>, encode: string -> string)
    requires table.Valid() && Unique(table.users)
    ensures Unique(RegisterAll(table, reqs, encode).users)
    decreases |reqs|
  {
    if reqs != [] {
      RegisterPreservesUniqueness(table, reqs[0], encode);
      RegistrationsPreserveUniqueness(Register(table, reqs[0], encode).1, reqs[1..], encode);
    }
  }

  /**
   * Once a sign-up has succeeded, a second one with the same username is refused with
   * the username message whatever its email, and one with a new username but the same
   * email is refused with the email message.
   */
  lemma RepeatedSignUpIsRefused(table: UserTable, first: SignupRequest, second: SignupRequest, encode: string -> string)
    requires table.Valid()
    requires Register(table, first, encode).0.Success?
    ensures var after := Register(table, first, encode).1;
      && (second.username == first.username ==>
            Register(after, second, encode) == (BadRequest(UsernameTakenMessage), after))
      && (!after.ExistsByUsername(second.username) && second.email == first.email ==>
            Register(after, second, encode) == (BadRequest(EmailInUseMessage), after))
  {
  }

  /** The controller with its collaborators: the user repository, the password encoder, the authentication manager and the token generator. */
  class AuthController {
    const userRepository: UserRepository
    const encoder: string -> string
    const authenticationManager: LoginRequest -> Option<Principal>
    const jwtUtils: Principal -> string

    constructor (
      userRepository: UserRepository,
      encoder: string -> string,
      authenticationManager: LoginRequest -> Option<Principal>,
      jwtUtils: Principal -> string)
      ensures this.userRepository == userRepository && this.encoder == encoder
      ensures this.authenticationManager == authenticationManager && this.jwtUtils == jwtUtils
    {
      this.userRepository := userRepository;
      this.encoder := encoder;
      this.authenticationManager := authenticationManager;
      this.jwtUtils := jwtUtils;
    }

    /**
     * POST /api/auth/signin: 401 when the authentication manager rejects the
     * credentials; otherwise the generated token, the principal's id, username and
     * email unchanged, and its first authority as the role.
     */
    function AuthenticateUser(login: LoginRequest): (r: SignInResult)
      ensures r.BadCredentials? <==> authenticationManager(login).None?
      ensures r.SignedIn? ==>
                var p := authenticationManager(login).value;
                && r.response.accessToken == jwtUtils(p)
                && r.response.id == p.id
                && r.response.username == p.username
                && r.response.email == p.email
                && (r.response.role in p.authorities || (p.authorities == [] && r.response.role == DefaultRole))
                && (p.authorities != [] ==> r.response.role == p.authorities[0])
    {
      match authenticationManager(login)
      case None => BadCredentials
      case Some(principal) =>
        var jwt := jwtUtils(principal);
        var role := FirstAuthority(principal.authorities);
        SignedIn(JwtResponse(jwt, principal.id, principal.username, principal.email, role))
    }

    /** POST /api/auth/signup: the two checks in order, then one save; no token is produced. */
    method RegisterUser(req: SignupRequest) returns (resp: MessageResponse)
      requires userRepository.Valid()
      modifies userRepository
      ensures userRepository.Valid()
      ensures (resp, userRepository.Table()) == Register(old(userRepository.Table()), req, encoder)
    {
      if userRepository.Table().ExistsByUsername(req.username) {
        return BadRequest(UsernameTakenMessage);
      }
      if userRepository.Table().ExistsByEmail(req.email) {
        return BadRequest(EmailInUseMessage);
      }
      var user := User(req.username, req.email, encoder(req.password));
      userRepository.Save(user);
      resp := Success(RegisteredMessage);
    }
  }

}
