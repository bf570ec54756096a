/** Registration and login over a user store held as a sequence in
    insertion order. Password hashing, hash comparison and token signing are
    uninterpreted functions handed in by the caller; the id a new user gets
    and whether the database write succeeds are inputs too. */
module AuthController {
  import opened Wrappers
  import opened Seqs
  import opened Models
  import opened Http

  /** The claims a token is signed over. Registration signs the id alone,
      login the id and the email; both ask for a seven-day lifetime. */
  datatype Claims = Claims(id: UserId, email: Option<string>, expiresIn: string)

  datatype UserSummary = UserSummary(id: UserId, email: string)

  datatype LoginBody = LoginBody(token: string, user: UserSummary)

  datatype RegisterOutcome = RegisterOutcome(reply: Reply<string>, users: UserStore)

  const TokenLifetime := "7d"
  const DuplicateEmailMessage := "Email already exists"
  const RegisterFailedMessage := "Server error during registration."
  const InvalidCredentialsMessage := "Invalid credentials"
  const LoginFailedMessage := "Login failed"

  /** `User.findOne({ email })`: the first user with exactly that email. */
  function FindUserByEmail(users: UserStore, email: string): (r: Option<User>)
    ensures r.Some? ==> r.value in users && r.value.email == email
    ensures r.None? <==> forall u :: u in users ==> u.email != email
  {
    match FirstIndex(users, (u: User) => u.email == email)
    case None => None
    case Some(i) => Some(users[i])
  }

  /** `register`: an email already present is refused with 400 and nothing
      stored; otherwise the password hash (never the password) is stored
      under a new user and a token over the new id is returned with 201. A
      failed write is a 500 that stores nothing; a signing failure (`sign`
      yields None when `jwt.sign` throws) comes after the write, so it is a
      500 with the user already stored. */
  function Register(users: UserStore, email: string, password: string,
                    hash: string -> string, sign: Claims -> Option<string>,
                    newId: UserId, saveOk: bool): (out: RegisterOutcome)
    ensures (exists u :: u in users && u.email == email) ==>
      out == RegisterOutcome(Message(400, DuplicateEmailMessage), users)
    ensures (forall u :: u in users ==> u.email != email) && saveOk ==>
      out.users == users + [User(newId, email, hash(password))]
    ensures !((forall u :: u in users ==> u.email != email) && saveOk) ==> out.users == users
    ensures out.reply.status == 201 <==>
      (forall u :: u in users ==> u.email != email) && saveOk && sign(Claims(newId, None, TokenLifetime)).Some?
    ensures out.reply.status == 201 ==>
      out.reply == Json(201, sign(Claims(newId, None, TokenLifetime)).value)
    ensures out.reply.status == 400 <==> exists u :: u in users && u.email == email
    ensures (forall u :: u in users ==> u.email != email) && out.reply.status != 201 ==>
      out.reply == Message(500, RegisterFailedMessage)
  {
    match FindUserByEmail(users, email)
    case Some(_) => RegisterOutcome(Message(400, DuplicateEmailMessage), users)
    case None =>
      if !saveOk then RegisterOutcome(Message(500, RegisterFailedMessage), users)
      else
        var stored := users + [User(newId, email, hash(password))];
        match sign(Claims(newId, None, TokenLifetime))
        case None => RegisterOutcome(Message(500, RegisterFailedMessage), stored)
        case Some(token) => RegisterOutcome(Json(201, token), stored)
  }

  /** `login`: an unknown email and a password the stored hash rejects get
      the same 400 reply. On success the reply names the matched user and
      carries a token signed over that user's id and email; a signing
      failure is a 500. Login has no store to return: it never writes. */
  function Login(users: UserStore, email: string, password: string,
                 compare: (string, string) -> bool, sign: Claims -> Option<string>): (r: Reply<LoginBody>)
    ensures r.status == 400 ==> r == Message(400, InvalidCredentialsMessage)
    ensures r.status == 400 <==>
      FindUserByEmail(users, email).None? || !compare(password, FindUserByEmail(users, email).value.password)
    ensures r.Message? && r.status != 400 ==> r == Message(500, LoginFailedMessage)
    ensures r.Json? <==>
      && FindUserByEmail(users, email).Some?
      && compare(password, FindUserByEmail(users, email).value.password)
      && sign(Claims(FindUserByEmail(users, email).value.id, Some(email), TokenLifetime)).Some?
    ensures r.Json? ==>
      && r.status == 200
      && r.body.user == UserSummary(FindUserByEmail(users, email).value.id, email)
      && sign(Claims(r.body.user.id, Some(r.body.user.email), TokenLifetime)) == Some(r.body.token)
  {
    match FindUserByEmail(users, email)
    case None => Message(400, InvalidCredentialsMessage)
    case Some(user) =>
      if !compare(password, user.password) then Message(400, InvalidCredentialsMessage)
      else
        match sign(Claims(user.id, Some(user.email), TokenLifetime))
        case None => Message(500, LoginFailedMessage)
        case Some(token) => Json(200, LoginBody(token, UserSummary(user.id, user.email)))
  }

  /** The number of users with a given email. */
  function CountEmail(users: UserStore, email: string): nat
  {
    |Filter(users, (u: User) => u.email == email)|
  }

  /** Registration keeps emails unique. */
  lemma RegisterKeepsEmailsUnique(users: UserStore, email: string, password: string,
                                  hash: string -> string, sign: Claims -> Option<string>,
                                  newId: UserId, saveOk: bool)
    requires UniqueEmails(users)
    ensures UniqueEmails(Register(users, email, password, hash, sign, newId, saveOk).users)
  {
    var out := Register(users, email, password, hash, sign, newId, saveOk);
    if (forall u :: u in users ==> u.email != email) && saveOk {
      forall i, j | 0 <= i < j < |out.users|
        ensures out.users[i].email != out.users[j].email
      {
        if j == |users| {
          assert out.users[i] in users;
        }
      }
    }
  }

  /** A successful write of a new email leaves exactly one user with it. */
  lemma RegisterStoresOne(users: UserStore, email: string, password: string,
                          hash: string -> string, sign: Claims -> Option<string>, newId: UserId)
    requires forall u :: u in users ==> u.email != email
    ensures CountEmail(Register(users, email, password, hash, sign, newId, true).users, email) == 1
  {
    var newUser := User(newId, email, hash(password));
    assert Register(users, email, password, hash, sign, newId, true).users == users + [newUser];
    var p := (u: User) => u.email == email;
    FilterAppendOne(users, newUser, p);
    assert Filter(users, p) == [];
  }

  /** Registering the same email twice: the first attempt stores the user
      even when its reply is a 500 from signing, so the second attempt is
      refused with 400 and the store holds exactly one user with that email. */
  lemma RegisterTwice(users: UserStore, email: string, p1: string, p2: string,
                      hash: string -> string, sign: Claims -> Option<string>,
                      id1: UserId, id2: UserId, ok2: bool)
    requires forall u :: u in users ==> u.email != email
    ensures var first := Register(users, email, p1, hash, sign, id1, true);
      var second := Register(first.users, email, p2, hash, sign, id2, ok2);
      && (first.reply.status == 201 || first.reply == Message(500, RegisterFailedMessage))
      && second == RegisterOutcome(Message(400, DuplicateEmailMessage), first.users)
      && CountEmail(second.users, email) == 1
  {
    var first := Register(users, email, p1, hash, sign, id1, true);
    var newUser := User(id1, email, hash(p1));
    assert newUser in first.users;
    RegisterStoresOne(users, email, p1, hash, sign, id1);
  }


  /** Login finds the record register wrote, whatever register replied:
      when the comparison accepts the password the hash was made from and
      signing succeeds, logging in right after registering returns the new
      user and a token over its id and email. */
  lemma RegisterThenLogin(users: UserStore, email: string, password: string,
                          hash: string -> string, compare: (string, string) -> bool,
                          sign: Claims -> Option<string>, newId: UserId)
    requires forall u :: u in users ==> u.email != email
    requires compare(password, hash(password))
    requires sign(Claims(newId, Some(email), TokenLifetime)).Some?
    ensures var reg := Register(users, email, password, hash, sign, newId, true);
      Login(reg.users, email, password, compare, sign)
        == Json(200, LoginBody(sign(Claims(newId, Some(email), TokenLifetime)).value, UserSummary(newId, email)))
  {
    var reg := Register(users, email, password, hash, sign, newId, true);
    var newUser := User(newId, email, hash(password));
    assert reg.users == users + [newUser];
    var found := FindUserByEmail(reg.users, email);
    assert found == Some(newUser);
  }

  /** The reply does not say which check failed: an unknown email and a
      wrong password produce the same reply. */
  lemma SameReplyForUnknownEmailAndWrongPassword(
      users1: UserStore, email1: string, password1: string,
      users2: UserStore, email2: string, password2: string,
      compare: (string, string) -> bool, sign: Claims -> Option<string>)
    requires forall u :: u in users1 ==> u.email != email1
    requires UniqueEmails(users2)
    requires exists u :: u in users2 && u.email == email2 && !compare(password2, u.password)
    ensures Login(users1, email1, password1, compare, sign) == Login(users2, email2, password2, compare, sign)
    ensures Login(users1, email1, password1, compare, sign) == Message(400, InvalidCredentialsMessage)
  {
    var u :| u in users2 && u.email == email2 && !compare(password2, u.password);
    var found := FindUserByEmail(users2, email2).value;
    var i :| 0 <= i < |users2| && users2[i] == u;
    var j :| 0 <= j < |users2| && users2[j] == found;
    assert i == j;
  }

  /** With unique emails, login is refused with 400 exactly when no stored
      user with that email has a hash accepting the password, and succeeds
      exactly when one does and its token can be signed. */
  lemma LoginSucceedsIff(users: UserStore, email: string, password: string,
                         compare: (string, string) -> bool, sign: Claims -> Option<string>)
    requires UniqueEmails(users)
    ensures Login(users, email, password, compare, sign).status == 400 <==>
      !exists u :: u in users && u.email == email && compare(password, u.password)
    ensures Login(users, email, password, compare, sign).Json? <==>
      exists u :: u in users && u.email == email && compare(password, u.password)
        && sign(Claims(u.id, Some(u.email), TokenLifetime)).Some?
  {
    if u :| u in users && u.email == email && compare(password, u.password) {
      var found := FindUserByEmail(users, email).value;
      var i :| 0 <= i < |users| && users[i] == u;
      var j :| 0 <= j < |users| && users[j] == found;
      assert i == j;
    }
  }
}
