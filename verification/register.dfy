/**
 * Registration (auth/register.php): trimming of the submitted fields, the
 * ordered validation chain, the username and then email lookups, and the
 * insert that follows only when everything passed.
 */
module Register {
  import opened Php
  import opened Rows
  import opened Users

  /** The checks of the registration form, in the order they are made. */
  datatype RegisterError =
    | MissingField
    | PasswordMismatch
    | PasswordTooShort
    | InvalidEmail
    | UsernameTaken
    | EmailTaken

  /** The message the page shows for each failed check. */
  function RegisterMessage(e: RegisterError): string
  {
    match e
    case MissingField => "All fields are required"
    case PasswordMismatch => "Passwords do not match"
    case PasswordTooShort => "Password must be at least 8 characters long"
    case InvalidEmail => "Please enter a valid email address"
    case UsernameTaken => "Username already exists. Please choose another one."
    case EmailTaken => "Email already in use. Please use another email or login to your existing account."
  }

  /** The length of each message; no two are alike. */
  function MessageLength(e: RegisterError): nat
  {
    match e
    case MissingField => 23
    case PasswordMismatch => 22
    case PasswordTooShort => 43
    case InvalidEmail => 34
    case UsernameTaken => 51
    case EmailTaken => 81
  }

  lemma RegisterMessageLength(e: RegisterError)
    ensures |RegisterMessage(e)| == MessageLength(e)
  {
  }

  /** Each failed check has its own message, so the page tells the user which one failed. */
  lemma RegisterMessagesDiffer(a: RegisterError, b: RegisterError)
    ensures a != b ==> RegisterMessage(a) != RegisterMessage(b)
  {
    RegisterMessageLength(a);
    RegisterMessageLength(b);
  }

  /**
   * The checks in their order. username and email arrive trimmed; password
   * and confirmation are taken as submitted. The full name is optional and
   * plays no part.
   */
  function RegisterCheck(rows: seq<User>, username: string, email: string, password: string, confirm: string,
                         validEmail: string -> bool): (r: Outcome<RegisterError>)
    ensures r == Fail(MissingField) <==>
              IsEmpty(username) || IsEmpty(email) || IsEmpty(password) || IsEmpty(confirm)
    ensures r == Fail(PasswordMismatch) <==>
              !IsEmpty(username) && !IsEmpty(email) && !IsEmpty(password) && !IsEmpty(confirm) && password != confirm
    ensures r == Fail(PasswordTooShort) <==>
              !IsEmpty(username) && !IsEmpty(email) && !IsEmpty(password) && password == confirm && |password| < 8
    ensures r == Fail(InvalidEmail) <==>
              !IsEmpty(username) && !IsEmpty(email) && !IsEmpty(password) && password == confirm && |password| >= 8
              && !validEmail(email)
    ensures r == Fail(UsernameTaken) ==> exists u :: u in rows && u.username == username
    ensures r == Fail(EmailTaken) ==>
              (forall u :: u in rows ==> u.username != username) && exists u :: u in rows && u.email == email
    ensures r == Pass <==>
              !IsEmpty(username) && !IsEmpty(email) && !IsEmpty(password) && password == confirm
              && |password| >= 8 && validEmail(email)
              && (forall u :: u in rows ==> u.username != username && u.email != email)
  {
    FoundMeans(rows, WithUsername(username));
    FoundMeans(rows, WithEmail(email));
    if IsEmpty(username) || IsEmpty(email) || IsEmpty(password) || IsEmpty(confirm) then Fail(MissingField)
    else if password != confirm then Fail(PasswordMismatch)
    else if |password| < 8 then Fail(PasswordTooShort)
    else if !validEmail(email) then Fail(InvalidEmail)
    else if Found(rows, WithUsername(username)) then Fail(UsernameTaken)
    else if Found(rows, WithEmail(email)) then Fail(EmailTaken)
    else Pass
  }

  /** A taken username is reported even when the email is taken as well. */
  lemma UsernameBeforeEmail(rows: seq<User>, username: string, email: string, password: string, confirm: string,
                            validEmail: string -> bool, u: User)
    requires !IsEmpty(username) && !IsEmpty(email) && !IsEmpty(password) && password == confirm
    requires |password| >= 8 && validEmail(email)
    requires u in rows && u.username == username
    ensures RegisterCheck(rows, username, email, password, confirm, validEmail)
            == Fail(UsernameTaken)
  {
    FoundMeans(rows, WithUsername(username));
  }

  /** A new row whose username and email no row has, under a fresh id, keeps the table well formed. */
  lemma AppendNewUser(rows: seq<User>, nextId: int, u: User)
    requires WellFormed(rows, nextId) && u.id == nextId
    requires forall v :: v in rows ==> v.username != u.username && v.email != u.email
    ensures WellFormed(rows + [u], nextId + 1)
  {
    AppendKeepsDistinct(rows, u, UserId);
    AppendKeepsDistinct(rows, u, Username);
    AppendKeepsDistinct(rows, u, UserEmail);
    forall v | v in rows + [u]
      ensures v in rows || v == u
    {
    }
  }

  /**
   * The registration request. When the chain passes, exactly one row is
   * appended: the trimmed username, email and full name with the hash of
   * the untrimmed password. On any failure the table is untouched.
   */
  method RegisterUser(users: UserTable, usernameField: string, emailField: string, password: string, confirm: string,
                      fullNameField: string, validEmail: string -> bool, hash: string -> string) returns (outcome: Outcome<RegisterError>)
    requires users.Valid()
    modifies users
    ensures users.Valid()
    ensures outcome == RegisterCheck(old(users.rows), Trim(usernameField), Trim(emailField), password, confirm, validEmail)
    ensures outcome.Fail? ==> users.rows == old(users.rows) && users.nextId == old(users.nextId)
    ensures outcome.Pass? ==>
              users.rows == old(users.rows) + [User(old(users.nextId), Trim(usernameField), Trim(emailField), hash(password), Trim(fullNameField))]
              && users.nextId == old(users.nextId) + 1
  {
    var username := Trim(usernameField);
    var email := Trim(emailField);
    var fullName := Trim(fullNameField);
    outcome := RegisterCheck(users.rows, username, email, password, confirm, validEmail);
    if outcome.Pass? {
      var u := User(users.nextId, username, email, hash(password), fullName);
      AppendNewUser(users.rows, users.nextId, u);
      users.rows := users.rows + [u];
      users.nextId := users.nextId + 1;
    }
  }
}
