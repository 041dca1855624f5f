/**
 * The users table that profile.php and auth/register.php read and write.
 * Passwords are stored as the hashes an outside hashing function produced;
 * the model never looks inside them.
 */
module Users {
  import opened Php
  import opened Rows

  /** A row of the users table. */
  datatype User = User(id: int, username: string, email: string, password: string, fullName: string)

  /** `WHERE id = ?` */
  function HasId(id: int): User -> bool
  {
    (u: User) => u.id == id
  }

  /** `WHERE username = ?` */
  function WithUsername(username: string): User -> bool
  {
    (u: User) => u.username == username
  }

  /** `WHERE email = ?` */
  function WithEmail(email: string): User -> bool
  {
    (u: User) => u.email == email
  }

  /** `WHERE email = ? AND id != ?` */
  function WithEmailOfOther(email: string, id: int): User -> bool
  {
    (u: User) => u.email == email && u.id != id
  }

  /** `SELECT * FROM users WHERE id = ?` followed by one fetch: the first row with that id. */
  function FindUser(rows: seq<User>, id: int): (r: Option<User>)
    ensures r.Some? ==> r.value in rows && r.value.id == id
    ensures r.None? <==> forall u :: u in rows ==> u.id != id
  {
    if rows == [] then None
    else if rows[0].id == id then Some(rows[0])
    else
      assert forall u :: u in rows ==> u == rows[0] || u in rows[1..];
      FindUser(rows[1..], id)
  }

  /** A lookup's `num_rows > 0`. */
  predicate Found(rows: seq<User>, where: User -> bool)
  {
    |Select(rows, where)| > 0
  }

  /** A lookup finds a row exactly when some row satisfies its WHERE clause. */
  lemma FoundMeans(rows: seq<User>, where: User -> bool)
    ensures Found(rows, where) <==> exists u :: u in rows && where(u)
  {
    SelectEmpty(rows, where);
  }

  function UserId(u: User): int
  {
    u.id
  }

  function Username(u: User): string
  {
    u.username
  }

  function UserEmail(u: User): string
  {
    u.email
  }

  /** No two positions of the table share an id, a username or an email. */
  ghost predicate Distinct(rows: seq<User>)
  {
    DistinctBy(rows, UserId) && DistinctBy(rows, Username) && DistinctBy(rows, UserEmail)
  }

  /** The table as the two pages keep it: distinct rows, every id below the AUTO_INCREMENT counter. */
  ghost predicate WellFormed(rows: seq<User>, nextId: int)
  {
    0 < nextId && Distinct(rows) && forall u :: u in rows ==> 0 < u.id < nextId
  }

  class UserTable {
    var rows: seq<User>
    /** The AUTO_INCREMENT counter of the users table. */
    var nextId: int

    ghost predicate Valid()
      reads this
    {
      WellFormed(rows, nextId)
    }

    constructor ()
      ensures Valid() && rows == [] && nextId == 1
    {
      rows := [];
      nextId := 1;
    }
  }
}
