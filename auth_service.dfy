/**
 * The credential flow: signup inserts a user under the unique-email constraint
 * and classifies what the insert throws; signIn looks the user up by email and
 * verifies the password, refusing an unknown email and a wrong password alike;
 * both hand out a token signed over `{ sub: id, email }` that expires after 15 minutes.
 */
module Auth {
  import opened Wrappers
  import opened Prisma
  import opened Exceptions

  const CredentialsTaken: string := "Credentials taken"
  const InvalidCredentials: string := "Invalid credentials"
  /** What signup returns, as a value, for a known database error other than a duplicate email. */
  const SomethingWentWrong: string := "Something went wrong"
  /** The token lifetime, `'15m'`, in seconds. */
  const AccessTokenLifetime: nat := 15 * 60

  /** The signup and signin body. */
  datatype AuthState = AuthState(email: string, password: string)

  /** What validation guarantees before the service runs: both fields are non-empty strings. */
  predicate Validated(body: AuthState) {
    body.email != "" && body.password != ""
  }

  /**
   * argon2 as the service uses it. `hash` also takes the salt argon2 draws at
   * random for each call; `verify(digest, password)` checks a password against a digest.
   */
  datatype Argon = Argon(hash: (string, nat) -> string, verify: (string, string) -> bool)

  /** The one property relied upon: a digest verifies the password it was made from, whatever the salt. */
  ghost predicate Sound(argon: Argon) {
    forall password, salt :: argon.verify(argon.hash(password, salt), password)
  }

  /** The claims of an access token. */
  datatype Payload = Payload(sub: int, email: string)

  /** A signed access token, modelled as what is signed and how: the claims, the lifetime in seconds and the secret. */
  datatype AccessToken = AccessToken(payload: Payload, expiresIn: nat, secret: string)

  /** `{ access_token }`, the body of a successful signup or signin. */
  datatype TokenResponse = TokenResponse(accessToken: AccessToken)

  /** What signup returns: the token response, or the bare string of its fallback branch. */
  datatype SignupResponse = Tokens(tokens: TokenResponse) | Text(text: string)

  /** The catch block of signup: a duplicate email is refused, another known database error becomes a returned string, anything else is rethrown. */
  function Classify(e: PrismaError): Result<SignupResponse, Failure> {
    if e.KnownRequestError? then
      if e.code == UniqueConstraintFailed then Err(Forbidden(CredentialsTaken)) else Ok(Text(SomethingWentWrong))
    else
      Err(Thrown(e))
  }

  /** An error from the insert is never turned into a token: each kind of error has exactly one outcome. */
  lemma ClassifyIssuesNoToken(e: PrismaError)
    ensures !(Classify(e).Ok? && Classify(e).value.Tokens?)
    ensures Classify(e) == Err(Forbidden(CredentialsTaken)) <==> e == KnownRequestError(UniqueConstraintFailed)
    ensures Classify(e).Ok? <==> e.KnownRequestError? && e.code != UniqueConstraintFailed
    ensures Classify(e).Ok? ==> Classify(e).value == Text(SomethingWentWrong)
    ensures Classify(e).Err? && Classify(e).error.Thrown? <==> e.UnknownError?
    ensures e.UnknownError? ==> Classify(e) == Err(Thrown(e))
  {
  }

  class AuthService {
    const prisma: PrismaService
    const argon: Argon
    /** The configured `ACCESS_TOKEN_SECRET`. */
    const accessTokenSecret: string

    constructor(prisma: PrismaService, argon: Argon, accessTokenSecret: string)
      ensures this.prisma == prisma && this.argon == argon && this.accessTokenSecret == accessTokenSecret
    {
      this.prisma := prisma;
      this.argon := argon;
      this.accessTokenSecret := accessTokenSecret;
    }

    /** The token handed to user `u`: claims `{ sub: u.id, email: u.email }`, fifteen minutes, the configured secret. */
    predicate IssuedTo(r: TokenResponse, u: User) {
      r.accessToken == AccessToken(Payload(u.id, u.email), AccessTokenLifetime, accessTokenSecret)
    }

    /** Sign `{ sub: id, email }` with a fifteen-minute expiry and the configured secret. */
    function SignInToken(email: string, id: int): TokenResponse
    {
      TokenResponse(AccessToken(Payload(id, email), AccessTokenLifetime, accessTokenSecret))
    }

    /**
     * Find the user by email, verify the password against its digest and issue
     * a token; an unknown email and a wrong password give the same refusal.
     */
    function SignIn(body: AuthState): (r: Result<TokenResponse, Failure>)
      reads prisma
      requires prisma.Valid() && Validated(body)
      ensures r.Err? ==> r.error == Forbidden(InvalidCredentials)
      ensures r.Ok? <==> exists id :: id in prisma.users && prisma.users[id].email == body.email && argon.verify(prisma.users[id].hash, body.password)
      ensures r.Ok? ==> exists id :: id in prisma.users && prisma.users[id].email == body.email && IssuedTo(r.value, prisma.users[id])
    {
      if body.email !in prisma.userByEmail then
        Err(Forbidden(InvalidCredentials))
      else
        var id := prisma.userByEmail[body.email];
        var user := prisma.users[id];
        assert UserIds(prisma.users, prisma.nextUserId);
        assert user.id == id;
        assert forall id :: id in prisma.users && prisma.users[id].email == body.email ==> id == user.id by {
          forall id | id in prisma.users && prisma.users[id].email == body.email ensures id == user.id {
            EmailIndexIsUnique(prisma.users, prisma.userByEmail, id, user.id);
          }
        }
        if !argon.verify(user.hash, body.password) then
          Err(Forbidden(InvalidCredentials))
        else
          Ok(SignInToken(user.email, user.id))
    }

    /**
     * Hash the password, insert the user and issue its token. `salt` is the
     * salt argon2 draws; `fault` is an error the database throws for this
     * insert whatever the table holds (a known request error with its code, or
     * another error), `None` when it does not.
     */
    method Signup(body: AuthState, salt: nat, fault: Option<PrismaError>) returns (r: Result<SignupResponse, Failure>)
      requires prisma.Valid() && Validated(body)
      modifies prisma`users, prisma`userByEmail, prisma`nextUserId
      ensures prisma.Valid()
      ensures (r.Ok? && r.value.Tokens?) <==> fault.None? && body.email !in old(prisma.userByEmail)
      ensures fault.None? && body.email !in old(prisma.userByEmail) ==>
        var u := User(old(prisma.nextUserId), body.email, argon.hash(body.password, salt), None, None);
        && u.id !in old(prisma.users)
        && prisma.users == old(prisma.users)[u.id := u]
        && prisma.userByEmail == old(prisma.userByEmail)[body.email := u.id]
        && prisma.nextUserId == old(prisma.nextUserId) + 1
        && r.value.Tokens? && IssuedTo(r.value.tokens, u)
      ensures fault.None? && body.email in old(prisma.userByEmail) ==> r == Err(Forbidden(CredentialsTaken))
      ensures fault.Some? ==> r == Classify(fault.value)
      ensures !(r.Ok? && r.value.Tokens?) ==> prisma.users == old(prisma.users) && unchanged(prisma)
      ensures Sound(argon) && r.Ok? && r.value.Tokens? ==> SignIn(body) == Ok(r.value.tokens)
    {
      var hash := argon.hash(body.password, salt);
      var created: Result<User, PrismaError>;
      if fault.Some? {
        created := Err(fault.value);
      } else if body.email in prisma.userByEmail {
        created := Err(KnownRequestError(UniqueConstraintFailed));
      } else {
        var user := User(prisma.nextUserId, body.email, hash, None, None);
        prisma.users := prisma.users[user.id := user];
        prisma.userByEmail := prisma.userByEmail[user.email := user.id];
        prisma.nextUserId := prisma.nextUserId + 1;
        created := Ok(user);
      }
      if created.Err? {
        return Classify(created.error);
      }
      r := Ok(Tokens(SignInToken(created.value.email, created.value.id)));
    }
  }
}
