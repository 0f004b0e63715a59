/** The sign-up and login rules (server/routControler/authControler.js) over the in-memory user
 *  store. Password hashing, password comparison and token issuance belong to libraries; they are
 *  parameters: `hash` stands for `bcrypt.hashSync(_, 10)`, `matches` for `bcrypt.compareSync` and
 *  `issueToken` for `jwtToken`. `now` is the value of `Date.now()`. */
module AuthController {
  import opened Wrappers
  import opened TempStorage
  import Strings

  datatype SignUpRequest = SignUpRequest(fullname: string, username: string, email: string,
                                         password: string, gender: string, profilepic: string)
  datatype LoginRequest = LoginRequest(email: string, password: string)

  /** A response body. A rejection carries `success: false` and a message; an accepted request
   *  carries the account and a token. No body has a password field. */
  datatype Body =
    | Rejected(message: string)
    | Account(id: string, fullname: string, username: string, profilepic: string, email: string,
              message: string, token: string)

  datatype Response = Response(status: nat, body: Body)

  const USERNAME_TAKEN := "Username Already Exists"
  const EMAIL_TAKEN := "Email Already Exists"
  const UNKNOWN_EMAIL := "Email doesn't exist. Please register first."
  const BAD_CREDENTIALS := "Invalid email or password"
  const REGISTERED := "User registered successfully"
  const LOGGED_IN := "Successfully logged in"

  const MALE_BACKGROUND := "3b82f6"
  const OTHER_BACKGROUND := "e91e63"

  /** The generated default avatar for `username` on the given background colour. */
  function AvatarUrl(username: string, background: string): string
  {
    "https://ui-avatars.com/api/?name=" + username + "&background=" + background + "&color=fff&size=128"
  }

  /** The stored profile picture: the supplied one when it is non-empty, otherwise the default
   *  avatar, blue for "male" and pink for any other gender. */
  function ProfilePic(supplied: string, username: string, gender: string): (r: string)
    ensures supplied != "" ==> r == supplied
    ensures supplied == "" && gender == "male" ==> r == AvatarUrl(username, MALE_BACKGROUND)
    ensures supplied == "" && gender != "male" ==> r == AvatarUrl(username, OTHER_BACKGROUND)
  {
    var boyProfilePic := if supplied != "" then supplied else AvatarUrl(username, MALE_BACKGROUND);
    var girlProfilePic := if supplied != "" then supplied else AvatarUrl(username, OTHER_BACKGROUND);
    if gender == "male" then boyProfilePic else girlProfilePic
  }

  /** The record a successful sign-up stores: the id is the decimal text of `now`, the password
   *  is stored only as its hash, and every other field is the request's. */
  function NewUser(req: SignUpRequest, hash: string -> string, now: nat): (u: StoredUser)
    ensures u.id == Strings.NatToString(now) && u.password == hash(req.password)
    ensures u.fullname == req.fullname && u.username == req.username && u.email == req.email && u.gender == req.gender
    ensures u.profilepic == ProfilePic(req.profilepic, req.username, req.gender)
  {
    StoredUser(Strings.NatToString(now), req.fullname, req.username, req.email, hash(req.password),
               req.gender, ProfilePic(req.profilepic, req.username, req.gender))
  }

  /** The account part of a `201` or `200` response: the record's fields but not its password. */
  function AccountOf(u: StoredUser, message: string, token: string): Body
  {
    Account(u.id, u.fullname, u.username, u.profilepic, u.email, message, token)
  }

  /** `SignUp`: a taken username is refused first, then a taken email, each with 400 and the store
   *  left as it is. Otherwise exactly one record is appended and 201 returns the account with a
   *  token for its id. The store never gets two records with one username or one email. */
  method SignUp(store: UserStore, req: SignUpRequest, hash: string -> string, now: nat,
                issueToken: string -> string) returns (res: Response)
    modifies store
    ensures FindUserByUsername(old(store.users), req.username).Some? ==>
              store.users == old(store.users) && res == Response(400, Rejected(USERNAME_TAKEN))
    ensures FindUserByUsername(old(store.users), req.username).None? &&
            FindUserByEmail(old(store.users), req.email).Some? ==>
              store.users == old(store.users) && res == Response(400, Rejected(EMAIL_TAKEN))
    ensures FindUserByUsername(old(store.users), req.username).None? &&
            FindUserByEmail(old(store.users), req.email).None? ==>
              store.users == old(store.users) + [NewUser(req, hash, now)] &&
              res == Response(201, AccountOf(NewUser(req, hash, now), REGISTERED, issueToken(Strings.NatToString(now))))
    ensures UniqueAccounts(old(store.users)) ==> UniqueAccounts(store.users)
  {
    var existingUser := FindUserByUsername(store.users, req.username);
    if existingUser.Some? {
      return Response(400, Rejected(USERNAME_TAKEN));
    }
    var existingEmail := FindUserByEmail(store.users, req.email);
    if existingEmail.Some? {
      return Response(400, Rejected(EMAIL_TAKEN));
    }
    var hashPassword := hash(req.password);
    var newUser := StoredUser(Strings.NatToString(now), req.fullname, req.username, req.email, hashPassword,
                              req.gender, ProfilePic(req.profilepic, req.username, req.gender));
    if UniqueAccounts(store.users) {
      AppendKeepsUnique(store.users, newUser);
    }
    store.AddUser(newUser);
    var token := issueToken(newUser.id);
    res := Response(201, AccountOf(newUser, REGISTERED, token));
  }

  /** `Login`: an email no record has is refused with 400, and so is a password that does not
   *  match the stored hash, each with its own message; neither refusal carries a token.
   *  Otherwise 200 returns the account of the first record with that email (every field but
   *  the password) and a token for its id. */
  function Login(users: seq<StoredUser>, req: LoginRequest, matches: (string, string) -> bool,
                 issueToken: string -> string): (res: Response)
    ensures (forall i | 0 <= i < |users| :: users[i].email != req.email) ==>
              res == Response(400, Rejected(UNKNOWN_EMAIL))
    ensures res.status == 200 <==> exists i | 0 <= i < |users| ::
              users[i].email == req.email && (forall j | 0 <= j < i :: users[j].email != req.email) &&
              matches(req.password, users[i].password)
    ensures res.status != 200 ==> res.status == 400 && res.body.Rejected?
    ensures res.status == 200 ==> (res.body.Account? && res.body.message == LOGGED_IN &&
              res.body.email == req.email && res.body.token == issueToken(res.body.id))
    ensures FindUserByEmail(users, req.email).Some? &&
            !matches(req.password, FindUserByEmail(users, req.email).value.password) ==>
              res == Response(400, Rejected(BAD_CREDENTIALS))
    ensures res.status == 200 ==>
              FindUserByEmail(users, req.email).Some? &&
              var user := FindUserByEmail(users, req.email).value;
              res.body == AccountOf(user, LOGGED_IN, issueToken(user.id))
  {
    match FindUserByEmail(users, req.email)
    case None => Response(400, Rejected(UNKNOWN_EMAIL))
    case Some(user) =>
      if !matches(req.password, user.password) then Response(400, Rejected(BAD_CREDENTIALS))
      else Response(200, AccountOf(user, LOGGED_IN, issueToken(user.id)))
  }

  /** Signing up and then logging in with the same email and password succeeds, and returns the
   *  new account, whenever the hash library accepts a password against its own hash. */
  lemma SignUpThenLogin(users: seq<StoredUser>, req: SignUpRequest, hash: string -> string, now: nat,
                        matches: (string, string) -> bool, issueToken: string -> string)
    requires FindUserByEmail(users, req.email).None?
    requires matches(req.password, hash(req.password))
    ensures var res := Login(users + [NewUser(req, hash, now)], LoginRequest(req.email, req.password), matches, issueToken);
            res.status == 200 && res.body == AccountOf(NewUser(req, hash, now), LOGGED_IN, issueToken(Strings.NatToString(now)))
  {
    var u := NewUser(req, hash, now);
    var r := users + [u];
    assert FindUserByEmail(r, req.email) == Some(u) by {
      assert forall i | 0 <= i < |users| :: r[i].email != req.email;
      assert r[|users|] == u;
    }
  }
}
