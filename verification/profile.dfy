/**
 * The two forms of profile.php: the contact update (full name and email)
 * and the password change, each an ordered chain of checks that reports the
 * first failure and writes the caller's row only when every check passes;
 * and the completion rate shown beside them.
 *
 * `filter_var(..., FILTER_VALIDATE_EMAIL)`, `password_verify` and
 * `password_hash` are outside functions, passed in as parameters.
 */
module Profile {
  import opened Php
  import opened Rows
  import opened Users
  import opened Tasks
  import opened TaskQuery
  import opened Progress

  // ---------------------------------------------------------------------------
  // update_profile

  /** The checks of the contact form, in the order they are made. */
  datatype ProfileError = EmailMissing | EmailInvalid | EmailInUse

  /** The message the page shows for each failed check. */
  function ProfileMessage(e: ProfileError): string
  {
    match e
    case EmailMissing => "Email is required"
    case EmailInvalid => "Please enter a valid email address"
    case EmailInUse => "Email already in use by another account"
  }

  /** Each failed check has its own message, so the page tells the user which one failed. */
  lemma ProfileMessagesDiffer(a: ProfileError, b: ProfileError)
    ensures a != b ==> ProfileMessage(a) != ProfileMessage(b)
  {
  }

  /**
   * The checks on the (already trimmed) email: it must be non-empty in the
   * sense of PHP empty(), pass the format check, and belong to no other
   * user. The first failing check gives the message.
   */
  function ProfileCheck(rows: seq<User>, userId: int, email: string, validEmail: string -> bool): (r: Outcome<ProfileError>)
    ensures r == Fail(EmailMissing) <==> IsEmpty(email)
    ensures r == Fail(EmailInvalid) <==> !IsEmpty(email) && !validEmail(email)
    ensures r == Fail(EmailInUse) <==>
              !IsEmpty(email) && validEmail(email) && exists u :: u in rows && u.email == email && u.id != userId
    ensures r == Pass <==>
              !IsEmpty(email) && validEmail(email) && forall u :: u in rows && u.email == email ==> u.id == userId
  {
    FoundMeans(rows, WithEmailOfOther(email, userId));
    if IsEmpty(email) then Fail(EmailMissing)
    else if !validEmail(email) then Fail(EmailInvalid)
    else if Found(rows, WithEmailOfOther(email, userId)) then Fail(EmailInUse)
    else Pass
  }

  /** Keeping one's own email is never a conflict: the check then depends only on the email itself. */
  lemma OwnEmailAccepted(rows: seq<User>, nextId: int, userId: int, email: string, validEmail: string -> bool)
    requires WellFormed(rows, nextId)
    requires exists u :: u in rows && u.id == userId && u.email == email
    ensures ProfileCheck(rows, userId, email, validEmail) == Pass <==> !IsEmpty(email) && validEmail(email)
  {
    var me :| me in rows && me.id == userId && me.email == email;
    forall u | u in rows && u.email == email
      ensures u.id == userId
    {
      DistinctMembers(rows, UserEmail, u, me);
    }
  }

  function SetContact(fullName: string, email: string): User -> User
  {
    (u: User) => u.(fullName := fullName, email := email)
  }

  /** `UPDATE users SET full_name = ?, email = ? WHERE id = ?` */
  function ContactUpdated(rows: seq<User>, userId: int, fullName: string, email: string): seq<User>
  {
    UpdateWhere(rows, HasId(userId), SetContact(fullName, email))
  }

  /**
   * The contact update keeps the table well formed once the checks pass:
   * no other user holds the new email, so emails stay distinct.
   */
  lemma ContactUpdateKeepsDistinct(rows: seq<User>, nextId: int, userId: int, fullName: string, email: string)
    requires WellFormed(rows, nextId)
    requires forall u :: u in rows && u.email == email ==> u.id == userId
    ensures WellFormed(ContactUpdated(rows, userId, fullName, email), nextId)
  {
    var r := ContactUpdated(rows, userId, fullName, email);
    UpdateWhereKeepsDistinct(rows, HasId(userId), SetContact(fullName, email), UserId);
    UpdateWhereKeepsDistinct(rows, HasId(userId), SetContact(fullName, email), Username);
    forall i, j | 0 <= i < j < |r|
      ensures r[i].email != r[j].email
    {
      assert rows[i] in rows && rows[j] in rows;
      assert rows[i].id != rows[j].id;
    }
    forall u | u in r
      ensures 0 < u.id < nextId
    {
      var i :| 0 <= i < |r| && r[i] == u;
      assert rows[i] in rows;
    }
  }

  /** Once the checks pass, the contact update keeps the table well formed. */
  lemma PassedContactUpdate(rows: seq<User>, nextId: int, userId: int, fullName: string, email: string,
                            validEmail: string -> bool)
    requires WellFormed(rows, nextId) && ProfileCheck(rows, userId, email, validEmail) == Pass
    ensures WellFormed(ContactUpdated(rows, userId, fullName, email), nextId)
  {
    ContactUpdateKeepsDistinct(rows, nextId, userId, fullName, email);
  }

  /**
   * update_profile: both fields are trimmed; when the checks pass the
   * caller's row takes the new full name and email and no other row
   * changes; when one fails the table is untouched.
   */
  method UpdateProfile(users: UserTable, userId: int, fullNameField: string, emailField: string,
                       validEmail: string -> bool) returns (outcome: Outcome<ProfileError>)
    requires users.Valid()
    modifies users
    ensures users.Valid() && users.nextId == old(users.nextId)
    ensures outcome == ProfileCheck(old(users.rows), userId, Trim(emailField), validEmail)
    ensures outcome.Fail? ==> users.rows == old(users.rows)
    ensures outcome.Pass? ==> users.rows == ContactUpdated(old(users.rows), userId, Trim(fullNameField), Trim(emailField))
  {
    var fullName := Trim(fullNameField);
    var email := Trim(emailField);
    outcome := ProfileCheck(users.rows, userId, email, validEmail);
    if outcome.Pass? {
      PassedContactUpdate(users.rows, users.nextId, userId, fullName, email, validEmail);
      users.rows := ContactUpdated(users.rows, userId, fullName, email);
    }
  }

  // ---------------------------------------------------------------------------
  // change_password

  /** The checks of the password form, in the order they are made. */
  datatype PasswordError = PasswordFieldMissing | NewPasswordMismatch | NewPasswordTooShort | CurrentPasswordWrong

  /** The message the page shows for each failed check. */
  function PasswordMessage(e: PasswordError): string
  {
    match e
    case PasswordFieldMissing => "All password fields are required"
    case NewPasswordMismatch => "New passwords do not match"
    case NewPasswordTooShort => "New password must be at least 8 characters long"
    case CurrentPasswordWrong => "Current password is incorrect"
  }

  /** Each failed password check has its own message. */
  lemma PasswordMessagesDiffer(a: PasswordError, b: PasswordError)
    ensures a != b ==> PasswordMessage(a) != PasswordMessage(b)
  {
  }

  /**
   * The password checks in their order: all three fields non-empty, new and
   * confirmation identical, the new one at least 8 long, and the current one
   * verifying against the stored hash (a missing user row verifies nothing).
   */
  function PasswordCheck(current: string, newPassword: string, confirm: string, stored: Option<User>,
                         verify: (string, string) -> bool): (r: Outcome<PasswordError>)
    ensures r == Fail(PasswordFieldMissing) <==>
              IsEmpty(current) || IsEmpty(newPassword) || IsEmpty(confirm)
    ensures r == Fail(NewPasswordMismatch) <==>
              !IsEmpty(current) && !IsEmpty(newPassword) && !IsEmpty(confirm) && newPassword != confirm
    ensures r == Fail(NewPasswordTooShort) <==>
              !IsEmpty(current) && !IsEmpty(newPassword) && newPassword == confirm && |newPassword| < 8
    ensures r == Pass <==>
              !IsEmpty(current) && newPassword == confirm && |newPassword| >= 8
              && stored.Some? && verify(current, stored.value.password)
    ensures r == Fail(CurrentPasswordWrong) <==>
              !IsEmpty(current) && !IsEmpty(newPassword) && newPassword == confirm && |newPassword| >= 8
              && !(stored.Some? && verify(current, stored.value.password))
  {
    if IsEmpty(current) || IsEmpty(newPassword) || IsEmpty(confirm) then Fail(PasswordFieldMissing)
    else if newPassword != confirm then Fail(NewPasswordMismatch)
    else if |newPassword| < 8 then Fail(NewPasswordTooShort)
    else if stored.Some? && verify(current, stored.value.password) then Pass
    else Fail(CurrentPasswordWrong)
  }

  /** The form checks come before the stored password is consulted: when one of them fails, the outcome is the same whoever the user is. */
  lemma FormChecksFirst(current: string, newPassword: string, confirm: string, a: Option<User>, b: Option<User>,
                        verify: (string, string) -> bool)
    requires IsEmpty(current) || IsEmpty(newPassword) || IsEmpty(confirm) || newPassword != confirm || |newPassword| < 8
    ensures PasswordCheck(current, newPassword, confirm, a, verify) == PasswordCheck(current, newPassword, confirm, b, verify)
    ensures PasswordCheck(current, newPassword, confirm, a, verify).Fail?
  {
  }

  function SetPassword(hash: string): User -> User
  {
    (u: User) => u.(password := hash)
  }

  /** `UPDATE users SET password = ? WHERE id = ?` */
  function PasswordUpdated(rows: seq<User>, userId: int, hash: string): seq<User>
  {
    UpdateWhere(rows, HasId(userId), SetPassword(hash))
  }

  /** A new password hash leaves ids, usernames and emails as they were, so the table stays well formed. */
  lemma PasswordUpdateKeepsDistinct(rows: seq<User>, nextId: int, userId: int, hash: string)
    requires WellFormed(rows, nextId)
    ensures WellFormed(PasswordUpdated(rows, userId, hash), nextId)
    ensures forall i :: 0 <= i < |rows| ==>
              var u := PasswordUpdated(rows, userId, hash)[i];
              u.id == rows[i].id && u.username == rows[i].username && u.email == rows[i].email
              && u.fullName == rows[i].fullName
  {
    var r := PasswordUpdated(rows, userId, hash);
    UpdateWhereKeepsDistinct(rows, HasId(userId), SetPassword(hash), UserId);
    UpdateWhereKeepsDistinct(rows, HasId(userId), SetPassword(hash), Username);
    UpdateWhereKeepsDistinct(rows, HasId(userId), SetPassword(hash), UserEmail);
    forall u | u in r
      ensures 0 < u.id < nextId
    {
      var i :| 0 <= i < |r| && r[i] == u;
      assert rows[i] in rows;
    }
  }

  /**
   * change_password: the stored hash is replaced by the hash of the new
   * password (not trimmed) only when every check passes; otherwise the
   * table is untouched.
   */
  method ChangePassword(users: UserTable, userId: int, current: string, newPassword: string, confirm: string,
                        verify: (string, string) -> bool, hash: string -> string) returns (outcome: Outcome<PasswordError>)
    requires users.Valid()
    modifies users
    ensures users.Valid() && users.nextId == old(users.nextId)
    ensures outcome == PasswordCheck(current, newPassword, confirm, FindUser(old(users.rows), userId), verify)
    ensures outcome.Fail? ==> users.rows == old(users.rows)
    ensures outcome.Pass? ==> users.rows == PasswordUpdated(old(users.rows), userId, hash(newPassword))
  {
    var user := FindUser(users.rows, userId);
    outcome := PasswordCheck(current, newPassword, confirm, user, verify);
    if outcome.Pass? {
      PasswordUpdateKeepsDistinct(users.rows, users.nextId, userId, hash(newPassword));
      users.rows := PasswordUpdated(users.rows, userId, hash(newPassword));
    }
  }

  // ---------------------------------------------------------------------------
  // Statistics

  /** `total_tasks > 0 ? (completed_tasks / total_tasks) * 100 : 0` over the caller's tasks. */
  function CompletionRate(rows: seq<Task>, owner: int): (r: real)
    ensures r == OverallProgress(rows, owner)
    ensures (forall t :: t in rows ==> t.owner != owner) ==> r == 0.0
    ensures 0.0 <= r <= 100.0
  {
    var c := StatusCounts(rows, owner);
    if c.total > 0 then (c.completed as real / c.total as real) * 100.0 else 0.0
  }
}
