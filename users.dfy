/**
 * The `users` table as the signup route sees it: the rows of
 * `SELECT * FROM users WHERE username = ? OR email = ?`, the two
 * `existingUsers.some(..)` flags and the fixed priority between the three
 * conflict messages.
 */
module UsersTable {

  /** A row of `users (username, email, password)`; signup stores the bcrypt
      output in the `password` column. */
  datatype Row = Row(username: string, email: string, password: string)

  /** Which of the two identifiers a set of rows already holds. */
  datatype Taken = BothTaken | EmailTaken | UsernameTaken | NoneTaken

  const BothTakenMessage := "Username and email are already taken"
  const EmailTakenMessage := "Email already taken"
  const UsernameTakenMessage := "Username already taken"

  /** JavaScript's `Array.prototype.some`: does some row pass `test`? */
  function Some(rows: seq<Row>, test: Row -> bool): (found: bool)
    ensures found <==> exists r :: r in rows && test(r)
  {
    if rows == [] then false
    else
      assert forall r :: r in rows <==> r == rows[0] || r in rows[1..];
      test(rows[0]) || Some(rows[1..], test)
  }

  /** Some row holds exactly this username (JavaScript `===`). */
  ghost predicate HoldsUsername(rows: seq<Row>, username: string) {
    exists r :: r in rows && r.username == username
  }

  /** Some row holds exactly this email (JavaScript `===`). */
  ghost predicate HoldsEmail(rows: seq<Row>, email: string) {
    exists r :: r in rows && r.email == email
  }

  /** The flags `isEmailTaken` and `isUsernameTaken`, computed over all the
      returned rows, and the priority both > email > username between them.
      The flags may come from two different rows. */
  function Classify(existing: seq<Row>, username: string, email: string): (t: Taken)
    ensures t == BothTaken <==> HoldsUsername(existing, username) && HoldsEmail(existing, email)
    ensures t == EmailTaken <==> !HoldsUsername(existing, username) && HoldsEmail(existing, email)
    ensures t == UsernameTaken <==> HoldsUsername(existing, username) && !HoldsEmail(existing, email)
    ensures t == NoneTaken <==> !HoldsUsername(existing, username) && !HoldsEmail(existing, email)
  {
    var isEmailTaken := Some(existing, (user: Row) => user.email == email);
    var isUsernameTaken := Some(existing, (user: Row) => user.username == username);
    if isEmailTaken && isUsernameTaken then BothTaken
    else if isEmailTaken then EmailTaken
    else if isUsernameTaken then UsernameTaken
    else NoneTaken
  }

  /** The message of the 400 response for a conflict. */
  function TakenMessage(t: Taken): string
    requires t != NoneTaken
  {
    match t
    case BothTaken => BothTakenMessage
    case EmailTaken => EmailTakenMessage
    case UsernameTaken => UsernameTakenMessage
  }

  /** The store's `=` on strings is at least reflexive: a row whose field is
      exactly the parameter always matches. */
  ghost predicate Reflexive(keyEquals: (string, string) -> bool) {
    forall s :: keyEquals(s, s)
  }

  /** `SELECT * FROM users WHERE username = ? OR email = ?`, with the store's
      string comparison `keyEquals`, in table order. */
  function Select(rows: seq<Row>, username: string, email: string,
                  keyEquals: (string, string) -> bool): (found: seq<Row>)
    ensures |found| <= |rows|
    ensures forall r :: r in found <==>
              r in rows && (keyEquals(r.username, username) || keyEquals(r.email, email))
  {
    if rows == [] then []
    else
      assert forall r :: r in rows <==> r == rows[0] || r in rows[1..];
      var rest := Select(rows[1..], username, email, keyEquals);
      if keyEquals(rows[0].username, username) || keyEquals(rows[0].email, email)
      then [rows[0]] + rest else rest
  }

  /** The SELECT filter never changes the verdict: classifying the rows it
      returns is the same as classifying the whole table, because every row
      that holds the exact username or email is among them. */
  lemma ClassifySelected(rows: seq<Row>, username: string, email: string,
                         keyEquals: (string, string) -> bool)
    ensures Reflexive(keyEquals) ==>
              Classify(Select(rows, username, email, keyEquals), username, email)
              == Classify(rows, username, email)
  {
    var found := Select(rows, username, email, keyEquals);
    if !Reflexive(keyEquals) {
    } else if HoldsUsername(rows, username) {
      var r :| r in rows && r.username == username;
      assert keyEquals(r.username, username);
      assert r in found;
    }
    if Reflexive(keyEquals) && HoldsEmail(rows, email) {
      var r :| r in rows && r.email == email;
      assert keyEquals(r.email, email);
      assert r in found;
    }
  }

  /** The SELECT returns table rows only, so it never reports an
      identifier the table does not hold, whatever the store's comparison. */
  lemma SelectedRowsComeFromTable(rows: seq<Row>, username: string, email: string,
                                  keyEquals: (string, string) -> bool)
    ensures !HoldsUsername(rows, username) && !HoldsEmail(rows, email) ==>
              Classify(Select(rows, username, email, keyEquals), username, email) == NoneTaken
  {
    var found := Select(rows, username, email, keyEquals);
    if !HoldsUsername(rows, username) && !HoldsEmail(rows, email) {
      forall r | r in found ensures r.username != username && r.email != email {
        assert r in rows;
      }
    }
  }

  /** The lookup the handler does before inserting: the SELECT, then, when it
      returned rows, the two flags and their priority. With a reflexive store
      comparison its verdict is that of the exact `===` flags over the whole
      table; whatever the comparison, a table holding neither identifier
      reports no conflict. */
  function Lookup(rows: seq<Row>, username: string, email: string,
                  keyEquals: (string, string) -> bool): (t: Taken)
    ensures Reflexive(keyEquals) ==> t == Classify(rows, username, email)
    ensures !HoldsUsername(rows, username) && !HoldsEmail(rows, email) ==> t == NoneTaken
  {
    ClassifySelected(rows, username, email, keyEquals);
    SelectedRowsComeFromTable(rows, username, email, keyEquals);
    var existingUsers := Select(rows, username, email, keyEquals);
    if |existingUsers| > 0 then Classify(existingUsers, username, email) else NoneTaken
  }

  /** One row holding the username and another row holding the email still
      report both as taken. */
  lemma SeparateRowsReportBoth(existing: seq<Row>, i: nat, j: nat, username: string, email: string)
    requires i < |existing| && j < |existing|
    requires existing[i].username == username && existing[j].email == email
    ensures Classify(existing, username, email) == BothTaken
  {
    assert existing[i] in existing && existing[j] in existing;
  }

  /** No two rows share a username and no two share an email. */
  ghost predicate Unique(rows: seq<Row>) {
    forall i, j :: 0 <= i < j < |rows| ==>
      rows[i].username != rows[j].username && rows[i].email != rows[j].email
  }

  /** Appending a row whose username and email the table does not hold keeps
      the table free of duplicates. */
  lemma AppendKeepsUnique(rows: seq<Row>, row: Row)
    requires Unique(rows)
    requires !HoldsUsername(rows, row.username) && !HoldsEmail(rows, row.email)
    ensures Unique(rows + [row])
  {
    var all := rows + [row];
    forall i, j | 0 <= i < j < |all|
      ensures all[i].username != all[j].username && all[i].email != all[j].email
    {
      if j == |rows| {
        assert all[i] == rows[i] && rows[i] in rows;
      } else {
        assert all[i] == rows[i] && all[j] == rows[j];
      }
    }
  }
}
