/**
 * The `/register` and `/login` handlers over the `users` collection:
 * ordered field validation, lower-case e-mail normalisation, the duplicate
 * check, the stored record, and the credential check.
 */
module UserRoute {

  import opened Options
  import opened JsStrings
  import opened JsValues
  import opened Mongo

  /** The placeholder picture every new user gets. */
  const DefaultProfilePicture: string :=
    "https://res.cloudinary.com/de74jeqj6/image/upload/v1746422098/xnsujseztlwg0wn4g433.png"

  /** The bcrypt cost factor passed to `hash`. */
  const SaltRounds: nat := 10

  /** The random salt bcrypt draws for a new hash. */
  type Salt = nat

  /** The two bcrypt operations the handlers call, kept abstract:
      `hash(password, rounds, salt)` and `compare(password, hash)`. */
  datatype Bcrypt = Bcrypt(hash: (string, nat, Salt) -> string, compare: (string, string) -> bool)

  /** The one property of bcrypt the handlers rely on: a password matches
      every hash made from it. */
  ghost predicate Sound(bcrypt: Bcrypt) {
    forall password, rounds, salt :: bcrypt.compare(password, bcrypt.hash(password, rounds, salt))
  }

  // ---------------------------------------------------------------------
  // Validators

  /** `[^\s@]`: a character that is neither white space nor `@`. */
  predicate IsEmailChar(c: char) { !IsWhiteSpace(c) && c != '@' }

  /** `[^\s@]+`. */
  ghost predicate EmailChars(s: string) {
    |s| > 0 && forall k :: 0 <= k < |s| ==> IsEmailChar(s[k])
  }

  /** What `/^[^\s@]+@[^\s@]+\.[^\s@]+$/` accepts: the whole string splits
      into three runs of `[^\s@]+`, joined by an `@` and then a `.`. */
  ghost predicate EmailPattern(s: string) {
    exists i, j :: 0 < i && i + 1 < j && j + 1 < |s| && s[i] == '@' && s[j] == '.'
                   && EmailChars(s[..i]) && EmailChars(s[i + 1..j]) && EmailChars(s[j + 1..])
  }

  /** The e-mail test on a string: no white space, exactly one `@` with
      something before it, and after it a `.` with a character on each side. */
  predicate MatchesEmailRegex(s: string) {
    (forall k | 0 <= k < |s| :: !IsWhiteSpace(s[k]))
    && exists i | 0 < i < |s| ::
         s[i] == '@'
         && (forall k | 0 <= k < |s| && k != i :: s[k] != '@')
         && exists j | i + 1 < j < |s| - 1 :: s[j] == '.'
  }

  /** A slice is a run of `[^\s@]+` exactly when it is non-empty and each
      of its characters is neither white space nor `@`. */
  lemma EmailCharsSlice(s: string, lo: nat, hi: nat)
    requires lo <= hi <= |s|
    ensures EmailChars(s[lo..hi]) <==> lo < hi && forall k :: lo <= k < hi ==> IsEmailChar(s[k])
  {
    if lo < hi && forall k :: lo <= k < hi ==> IsEmailChar(s[k]) {
      forall k | 0 <= k < hi - lo ensures IsEmailChar(s[lo..hi][k]) {
        assert s[lo..hi][k] == s[lo + k];
      }
    }
    if EmailChars(s[lo..hi]) {
      forall k | lo <= k < hi ensures IsEmailChar(s[k]) {
        assert s[lo..hi][k - lo] == s[k];
      }
    }
  }

  /** Every string `MatchesEmailRegex` accepts is in the language of the
      regular expression. */
  lemma EmailTestSound(s: string)
    requires MatchesEmailRegex(s)
    ensures EmailPattern(s)
  {
    var i :| 0 < i < |s| && s[i] == '@'
             && (forall k | 0 <= k < |s| && k != i :: s[k] != '@')
             && exists j | i + 1 < j < |s| - 1 :: s[j] == '.';
    var j :| i + 1 < j < |s| - 1 && s[j] == '.';
    EmailCharsSlice(s, 0, i);
    EmailCharsSlice(s, i + 1, j);
    EmailCharsSlice(s, j + 1, |s|);
    assert s[..i] == s[0..i] && s[j + 1..] == s[j + 1..|s|];
  }

  /** Every string in the language of the regular expression passes
      `MatchesEmailRegex`. */
  lemma EmailTestComplete(s: string)
    requires EmailPattern(s)
    ensures MatchesEmailRegex(s)
  {
    var i, j :| 0 < i && i + 1 < j && j + 1 < |s| && s[i] == '@' && s[j] == '.'
                && EmailChars(s[..i]) && EmailChars(s[i + 1..j]) && EmailChars(s[j + 1..]);
    assert s[..i] == s[0..i] && s[j + 1..] == s[j + 1..|s|];
    EmailCharsSlice(s, 0, i);
    EmailCharsSlice(s, i + 1, j);
    EmailCharsSlice(s, j + 1, |s|);
    forall k | 0 <= k < |s| ensures !IsWhiteSpace(s[k]) && (k != i ==> s[k] != '@') {
      if k != i && k != j {
        assert IsEmailChar(s[k]);
      }
    }
    assert i + 1 < j < |s| - 1 && s[j] == '.';
  }

  /** The characterisation `MatchesEmailRegex` computes is exactly the
      language of the regular expression. */
  lemma EmailRegexMeaning(s: string)
    ensures MatchesEmailRegex(s) <==> EmailPattern(s)
  {
    if MatchesEmailRegex(s) { EmailTestSound(s); }
    if EmailPattern(s) { EmailTestComplete(s); }
  }

  /** `is_valid_email(email)`: `RegExp.prototype.test` converts its
      argument to a string first. */
  function IsValidEmail(email: JsVal): (r: bool)
    ensures r <==> EmailPattern(ToJsString(email))
  {
    EmailRegexMeaning(ToJsString(email));
    MatchesEmailRegex(ToJsString(email))
  }

  /** A truthy value that passes the e-mail test is a string or an array:
      no other kind of value has a string form that matches. */
  lemma ValidEmailIsStringOrArray(email: JsVal)
    requires Truthy(email) && IsValidEmail(email)
    ensures email.Str? || email.Arr?
  {
    if !email.Str? && !email.Arr? {
      ScalarStringShape(email);
    }
  }

  /** `is_strong_password(password)`. A strong password is also present for
      the `!password` check and non-empty for login's password check. */
  function IsStrongPassword(password: JsVal): (r: bool)
    ensures r ==> Truthy(password) && password.Str? && password.s != []
  {
    password.Str? && |password.s| >= 9
  }

  /** Changing the case of letters does not change whether the e-mail test passes. */
  lemma EmailTestIgnoresCase(a: string, b: string)
    requires EqualIgnoringCase(a, b)
    ensures MatchesEmailRegex(a) <==> MatchesEmailRegex(b)
  {
    assert forall k :: 0 <= k < |a| ==>
      (IsWhiteSpace(a[k]) <==> IsWhiteSpace(b[k])) && (a[k] == '@' <==> b[k] == '@')
      && (a[k] == '.' <==> b[k] == '.');
  }

  // ---------------------------------------------------------------------
  // Records and responses

  /** A stored user (its `_id` is the document's identifier). */
  datatype User = User(
    profilePicture: string,
    firstName: JsVal,
    lastName: JsVal,
    email: string,
    password: string,
    admin: bool)

  datatype RegisterBody = RegisterBody(firstName: JsVal, lastName: JsVal, email: JsVal, password: JsVal)

  datatype LoginBody = LoginBody(email: JsVal, password: JsVal)

  /** The status code and JSON body a handler answers with. */
  datatype AuthResponse =
    | Failure(status: nat, error: string)
    | Success(status: nat, message: string, userId: ObjectId)

  const AllFieldsRequired := Failure(400, "all fields are required")
  const InvalidEmailFormat := Failure(400, "invalid email format")
  const WeakPassword := Failure(400, "password must be at least 9 characters long")
  const EmailExists := Failure(409, "email already exists")
  const ServerError := Failure(500, "something went wrong")
  const CredentialsRequired := Failure(400, "email and password are required")
  const PasswordMissing := Failure(400, "password must be provided")
  const InvalidCredentials := Failure(401, "invalid email or password")

  /** The `findOne` filter `{ email: email }`. */
  function EmailIs(email: string): Document<User> -> bool {
    (d: Document<User>) => d.fields.email == email
  }

  /** The users collection as the handlers keep it: every stored e-mail is
      in lower case and no two users share one. */
  ghost predicate EmailsNormalised(users: seq<Document<User>>) {
    (forall k :: 0 <= k < |users| ==> IsLowerCase(users[k].fields.email))
    && forall j, k :: 0 <= j < k < |users| ==> users[j].fields.email != users[k].fields.email
  }

  // ---------------------------------------------------------------------
  // Registration

  predicate AllRegisterFieldsPresent(body: RegisterBody) {
    Truthy(body.firstName) && Truthy(body.lastName) && Truthy(body.email) && Truthy(body.password)
  }

  /** The checks made before the database is touched, in order; the first
      that fails decides the answer. */
  function RegisterValidation(body: RegisterBody): (r: Option<AuthResponse>)
    ensures r == Some(AllFieldsRequired) <==> !AllRegisterFieldsPresent(body)
    ensures r == Some(InvalidEmailFormat) <==>
              AllRegisterFieldsPresent(body) && !IsValidEmail(body.email)
    ensures r == Some(WeakPassword) <==>
              AllRegisterFieldsPresent(body) && IsValidEmail(body.email) && !IsStrongPassword(body.password)
    ensures r == None <==>
              AllRegisterFieldsPresent(body) && IsValidEmail(body.email) && IsStrongPassword(body.password)
  {
    if !AllRegisterFieldsPresent(body) then Some(AllFieldsRequired)
    else if !IsValidEmail(body.email) then Some(InvalidEmailFormat)
    else if !IsStrongPassword(body.password) then Some(WeakPassword)
    else None
  }

  /** The record registration stores: the e-mail in lower case, a bcrypt
      hash of cost 10 in place of the password, the names as sent, the
      placeholder picture and no admin rights. */
  function NewUser(body: RegisterBody, bcrypt: Bcrypt, salt: Salt): (r: User)
    requires body.email.Str? && body.password.Str?
    ensures IsLowerCase(r.email) && EqualIgnoringCase(body.email.s, r.email)
    ensures r.password == bcrypt.hash(body.password.s, SaltRounds, salt)
    ensures r.firstName == body.firstName && r.lastName == body.lastName
    ensures r.profilePicture == DefaultProfilePicture && !r.admin
  {
    User(DefaultProfilePicture, body.firstName, body.lastName, Lower(body.email.s),
         bcrypt.hash(body.password.s, SaltRounds, salt), false)
  }

  /** What `/register` answers and what the collection holds afterwards.
      `storeFails` says that a call inside the handler's `try` block throws;
      `email.toLowerCase()` throws there too when the e-mail is not a string. */
  function RegisterOutcome(users: seq<Document<User>>, nextId: ObjectId, body: RegisterBody,
                           bcrypt: Bcrypt, salt: Salt, storeFails: bool): (AuthResponse, seq<Document<User>>)
  {
    match RegisterValidation(body)
    case Some(rejection) => (rejection, users)
    case None =>
      if storeFails || !body.email.Str? then (ServerError, users)
      else if FindOne(users, EmailIs(Lower(body.email.s))).Some? then (EmailExists, users)
      else (Success(201, "user registered successfully", nextId),
            users + [Document(nextId, NewUser(body, bcrypt, salt))])
  }

  /** Registration either leaves the collection as it was, or answers 201
      with a new identifier and appends exactly one record: the lower-cased
      e-mail, the bcrypt hash in place of the password, the names as sent,
      the default picture and no admin rights. It succeeds exactly when the
      body is valid and no stored user has the lower-cased e-mail. */
  lemma RegisterEffect(users: seq<Document<User>>, nextId: ObjectId, body: RegisterBody,
                       bcrypt: Bcrypt, salt: Salt, storeFails: bool)
    ensures var (resp, after) := RegisterOutcome(users, nextId, body, bcrypt, salt, storeFails);
      && (!resp.Success? ==> after == users)
      && (resp.Success? <==>
            RegisterValidation(body).None? && !storeFails && body.email.Str?
            && forall k :: 0 <= k < |users| ==> users[k].fields.email != Lower(body.email.s))
      && (resp.Success? ==>
            && body.email.Str? && body.password.Str?
            && resp.status == 201 && resp.userId == nextId
            && |after| == |users| + 1 && after[..|users|] == users
            && after[|users|].id == nextId
            && after[|users|].fields.email == Lower(body.email.s)
            && after[|users|].fields.password == bcrypt.hash(body.password.s, SaltRounds, salt)
            && after[|users|].fields.firstName == body.firstName
            && after[|users|].fields.lastName == body.lastName
            && after[|users|].fields.profilePicture == DefaultProfilePicture
            && !after[|users|].fields.admin)
  {
  }

  /** A missing field is reported before anything else, whatever the other
      fields hold, and nothing is stored. */
  lemma RegisterMissingField(users: seq<Document<User>>, nextId: ObjectId, body: RegisterBody,
                             bcrypt: Bcrypt, salt: Salt, storeFails: bool)
    requires !Truthy(body.firstName) || !Truthy(body.lastName) || !Truthy(body.email) || !Truthy(body.password)
    ensures RegisterOutcome(users, nextId, body, bcrypt, salt, storeFails) == (AllFieldsRequired, users)
  {
  }

  /** The answers that store nothing: a failed check is answered as such, a
      throwing call or a non-string e-mail gets 500, and an e-mail whose
      lower-case form any stored user has gets 409. */
  lemma RegisterRejections(users: seq<Document<User>>, nextId: ObjectId, body: RegisterBody,
                           bcrypt: Bcrypt, salt: Salt, storeFails: bool)
    ensures RegisterValidation(body).Some? ==>
              RegisterOutcome(users, nextId, body, bcrypt, salt, storeFails) == (RegisterValidation(body).value, users)
    ensures RegisterValidation(body).None? && (storeFails || !body.email.Str?) ==>
              RegisterOutcome(users, nextId, body, bcrypt, salt, storeFails) == (ServerError, users)
    ensures RegisterValidation(body).None? && !storeFails && body.email.Str?
            && (exists k :: 0 <= k < |users| && users[k].fields.email == Lower(body.email.s)) ==>
              RegisterOutcome(users, nextId, body, bcrypt, salt, storeFails) == (EmailExists, users)
  {
    if RegisterValidation(body).None? && !storeFails && body.email.Str? {
      if k :| 0 <= k < |users| && users[k].fields.email == Lower(body.email.s) {
        assert EmailIs(Lower(body.email.s))(users[k]);
      }
    }
  }

  /** Registration keeps the stored e-mails lower-case and distinct. */
  lemma RegisterKeepsEmailsNormalised(users: seq<Document<User>>, nextId: ObjectId, body: RegisterBody,
                                      bcrypt: Bcrypt, salt: Salt, storeFails: bool)
    requires EmailsNormalised(users)
    ensures EmailsNormalised(RegisterOutcome(users, nextId, body, bcrypt, salt, storeFails).1)
  {
    if RegisterValidation(body).None? && !storeFails && body.email.Str? {
      LowerIsLowerCase(body.email.s);
    }
  }

  /** Once an e-mail is registered, a second registration whose e-mail
      differs from it only in letter case gets 409 and stores nothing. */
  lemma CaseVariantRegistrationRejected(users: seq<Document<User>>, nextId: ObjectId,
                                        first: RegisterBody, second: RegisterBody,
                                        bcrypt: Bcrypt, salt: Salt, salt': Salt)
    requires RegisterOutcome(users, nextId, first, bcrypt, salt, false).0.Success?
    requires RegisterValidation(second).None?
    requires first.email.Str? && second.email.Str? && EqualIgnoringCase(first.email.s, second.email.s)
    ensures var after := RegisterOutcome(users, nextId, first, bcrypt, salt, false).1;
            RegisterOutcome(after, nextId + 1, second, bcrypt, salt', false) == (EmailExists, after)
  {
    var after := RegisterOutcome(users, nextId, first, bcrypt, salt, false).1;
    LowerEqualIffEqualIgnoringCase(first.email.s, second.email.s);
    assert EmailIs(Lower(second.email.s))(after[|users|]);
  }

  /** `/register`, run against the collection. */
  method Register(users: Collection<User>, body: RegisterBody, bcrypt: Bcrypt, salt: Salt, storeFails: bool)
    returns (resp: AuthResponse)
    requires users.Valid()
    modifies users
    ensures users.Valid()
    ensures (resp, users.docs) == RegisterOutcome(old(users.docs), old(users.nextId), body, bcrypt, salt, storeFails)
    ensures users.nextId == if resp.Success? then old(users.nextId) + 1 else old(users.nextId)
    ensures EmailsNormalised(old(users.docs)) ==> EmailsNormalised(users.docs)
  {
    ghost var before, nextId := users.docs, users.nextId;
    if EmailsNormalised(before) {
      RegisterKeepsEmailsNormalised(before, nextId, body, bcrypt, salt, storeFails);
    }
    var rejection := RegisterValidation(body);
    if rejection.Some? {
      return rejection.value;
    }
    if storeFails || !body.email.Str? {
      return ServerError;
    }
    var email := Lower(body.email.s);
    var existing := FindOne(users.docs, EmailIs(email));
    if existing.Some? {
      return EmailExists;
    }
    var id := users.InsertOne(NewUser(body, bcrypt, salt));
    resp := Success(201, "user registered successfully", id);
  }

  // ---------------------------------------------------------------------
  // Login

  /** The checks made before the database is touched, in order. */
  function LoginValidation(body: LoginBody): (r: Option<AuthResponse>)
    ensures r == Some(CredentialsRequired) <==> !Truthy(body.email) || !Truthy(body.password)
    ensures r == Some(InvalidEmailFormat) <==>
              Truthy(body.email) && Truthy(body.password) && !IsValidEmail(body.email)
    ensures r == Some(PasswordMissing) <==>
              Truthy(body.email) && Truthy(body.password) && IsValidEmail(body.email) && !body.password.Str?
    ensures r == None <==> IsValidEmail(body.email) && body.password.Str? && body.password.s != []
  {
    if !Truthy(body.email) || !Truthy(body.password) then Some(CredentialsRequired)
    else if !IsValidEmail(body.email) then Some(InvalidEmailFormat)
    else if !body.password.Str? || |body.password.s| < 1 then Some(PasswordMissing)
    else None
  }

  /** `/login`: it only reads the collection. It answers 200 with a user's
      identifier only when a stored user has the lower-cased e-mail and
      bcrypt accepts the password against that user's hash. */
  function Login(users: seq<Document<User>>, body: LoginBody, bcrypt: Bcrypt, storeFails: bool): (r: AuthResponse)
    ensures r.Success? ==>
              && r.status == 200 && LoginValidation(body).None? && !storeFails
              && body.email.Str? && body.password.Str?
              && exists k :: 0 <= k < |users| && users[k].id == r.userId
                             && users[k].fields.email == Lower(body.email.s)
                             && bcrypt.compare(body.password.s, users[k].fields.password)
    ensures LoginValidation(body).Some? ==> r == LoginValidation(body).value
    ensures LoginValidation(body).None? && (storeFails || !body.email.Str?) ==> r == ServerError
    ensures r.Failure? ==> r in {CredentialsRequired, InvalidEmailFormat, PasswordMissing,
                                 ServerError, InvalidCredentials}
  {
    match LoginValidation(body)
    case Some(rejection) => rejection
    case None =>
      if storeFails || !body.email.Str? then ServerError
      else match FindOne(users, EmailIs(Lower(body.email.s)))
        case None => InvalidCredentials
        case Some(user) =>
          if bcrypt.compare(body.password.s, user.fields.password)
          then Success(200, "login successful", user.id)
          else InvalidCredentials
  }

  /** The converse of `Login`'s promise: when the stored e-mails are
      distinct, a valid body whose lower-cased e-mail belongs to a stored
      user and whose password bcrypt accepts against that user's hash logs
      that user in. */
  lemma LoginSucceedsForMatchingUser(users: seq<Document<User>>, body: LoginBody, bcrypt: Bcrypt, k: nat)
    requires EmailsNormalised(users)
    requires LoginValidation(body).None? && body.email.Str?
    requires k < |users| && users[k].fields.email == Lower(body.email.s)
    requires bcrypt.compare(body.password.s, users[k].fields.password)
    ensures Login(users, body, bcrypt, false) == Success(200, "login successful", users[k].id)
  {
    assert EmailIs(Lower(body.email.s))(users[k]);
    var found := FindOne(users, EmailIs(Lower(body.email.s)));
    var j :| 0 <= j < |users| && users[j] == found.value;
    assert j == k;
  }

  /** An unknown e-mail and a wrong password get the very same answer, so the
      response does not tell which of the two failed. */
  lemma LoginHidesWhichCheckFailed(unknown: seq<Document<User>>, known: seq<Document<User>>,
                                   body: LoginBody, bcrypt: Bcrypt)
    requires LoginValidation(body).None? && body.email.Str?
    requires forall k :: 0 <= k < |unknown| ==> unknown[k].fields.email != Lower(body.email.s)
    requires forall k :: 0 <= k < |known| && known[k].fields.email == Lower(body.email.s) ==>
               !bcrypt.compare(body.password.s, known[k].fields.password)
    ensures Login(unknown, body, bcrypt, false) == InvalidCredentials
    ensures Login(known, body, bcrypt, false) == InvalidCredentials
  {
    var found := FindOne(known, EmailIs(Lower(body.email.s)));
    if found.Some? {
      var k :| 0 <= k < |known| && known[k] == found.value;
    }
  }

  /** After a successful registration, logging in with the same password and
      the e-mail in any letter case answers 200 with the new user's identifier. */
  lemma RegisteredUserCanLogIn(users: seq<Document<User>>, nextId: ObjectId, reg: RegisterBody,
                               bcrypt: Bcrypt, salt: Salt, login: LoginBody)
    requires Sound(bcrypt)
    requires RegisterOutcome(users, nextId, reg, bcrypt, salt, false).0.Success?
    requires login.password == reg.password
    requires login.email.Str? && reg.email.Str? && EqualIgnoringCase(login.email.s, reg.email.s)
    ensures Login(RegisterOutcome(users, nextId, reg, bcrypt, salt, false).1, login, bcrypt, false)
            == Success(200, "login successful", nextId)
  {
    var after := RegisterOutcome(users, nextId, reg, bcrypt, salt, false).1;
    EmailTestIgnoresCase(login.email.s, reg.email.s);
    LowerEqualIffEqualIgnoringCase(login.email.s, reg.email.s);
    var found := FindOne(after, EmailIs(Lower(login.email.s)));
    assert EmailIs(Lower(login.email.s))(after[|users|]);
    assert found.Some? && found.value == after[|users|] by {
      var k :| 0 <= k < |after| && after[k] == found.value;
    }
  }
}
