/**
 * The `POST /signup` handler: validate, look for conflicts, hash, insert,
 * answer. The handler owns the `users` table; the library pieces it calls
 * (the email-syntax check, bcrypt's hash and the store's string comparison)
 * are given to it as functions, and the salt that `bcrypt.genSalt()` draws
 * is a parameter of each request.
 */
module Signup {
  import opened JsString
  import opened Validators
  import opened UsersTable

  /** The awaited calls inside the handler's `try` block; each may throw. */
  datatype Step = SelectUsers | GenSalt | HashPassword | InsertUser

  /** What the handler answers. */
  datatype Outcome =
    | ValidationFailed(errors: seq<FieldError>)   // 400 {errors}
    | Conflict(message: string)                   // 400 {message}
    | Created(message: string)                    // 201 {message}
    | InternalError(message: string)              // 500 {message}

  const SignedUpMessage := "Signed up successfully!"
  const InternalErrorMessage := "Internal Server Error"

  /** The library functions the handler relies on without seeing into them:
      `isEmail` (validator.js), `bcrypt.hash(password, salt)` and the store's
      `=` on strings (its collation). */
  datatype Collaborators = Collaborators(
    isEmail: string -> bool,
    hash: (string, string) -> string,
    keyEquals: (string, string) -> bool)

  /** The outcome of one request and the table it leaves behind. */
  datatype Transition = Transition(outcome: Outcome, users: seq<Row>)

  /** The HTTP status of each outcome. */
  function Status(o: Outcome): (code: nat)
    ensures code == 201 <==> o.Created?
    ensures code == 500 <==> o.InternalError?
    ensures code == 400 <==> o.ValidationFailed? || o.Conflict?
  {
    match o
    case ValidationFailed(_) => 400
    case Conflict(_) => 400
    case Created(_) => 201
    case InternalError(_) => 500
  }

  /** The row a successful signup inserts: the trimmed username, the email as
      given, and the hash of the raw password under the drawn salt. */
  function NewRow(body: SignupBody, salt: string, env: Collaborators): Row {
    Row(Trim(body.username), body.email, env.hash(body.password, salt))
  }

  /** The state transition of one signup request on table `users`, where
      `failing` holds the awaited calls that throw if they are reached. */
  function SignupTransition(users: seq<Row>, body: SignupBody, salt: string,
                            failing: set<Step>, env: Collaborators): (t: Transition)
    ensures t.outcome.ValidationFailed? <==> !Acceptable(body, env.isEmail)
    ensures !t.outcome.Created? ==> t.users == users
    ensures t.outcome.Created? ==>
              t.outcome.message == SignedUpMessage && t.users == users + [NewRow(body, salt, env)]
  {
    var errors := Validate(body, env.isEmail);
    if errors != [] then Transition(ValidationFailed(errors), users)
    else if SelectUsers in failing then Transition(InternalError(InternalErrorMessage), users)
    else
      var username := Trim(body.username);
      var taken := Lookup(users, username, body.email, env.keyEquals);
      if taken != NoneTaken then Transition(Conflict(TakenMessage(taken)), users)
      else if GenSalt in failing || HashPassword in failing || InsertUser in failing
      then Transition(InternalError(InternalErrorMessage), users)
      else Transition(Created(SignedUpMessage), users + [NewRow(body, salt, env)])
  }

  /** The router with the table it writes to. */
  class SignupHandler {
    var users: seq<Row>
    const env: Collaborators

    constructor (users: seq<Row>, env: Collaborators)
      ensures this.users == users && this.env == env
    {
      this.users := users;
      this.env := env;
    }

    /** `INSERT INTO users (username, email, password) VALUES (?, ?, ?)`. */
    method Insert(row: Row)
      modifies this
      ensures users == old(users) + [row]
    {
      users := users + [row];
    }

    /** The handler body, step by step with its early returns. */
    method Signup(body: SignupBody, salt: string, failing: set<Step>) returns (outcome: Outcome)
      modifies this
      ensures Transition(outcome, users) == SignupTransition(old(users), body, salt, failing, env)
    {
      // The trim() sanitizer has rewritten req.body.username before the
      // handler destructures it.
      var username, email, password := Trim(body.username), body.email, body.password;
      var errors := Validate(body, env.isEmail);
      if errors != [] {
        return ValidationFailed(errors);
      }
      if SelectUsers in failing {
        return InternalError(InternalErrorMessage);
      }
      var existingUsers := Select(users, username, email, env.keyEquals);
      if |existingUsers| > 0 {
        var taken := Classify(existingUsers, username, email);
        assert taken == Lookup(users, username, email, env.keyEquals);
        if taken != NoneTaken {
          return Conflict(TakenMessage(taken));
        }
      }
      assert Lookup(users, username, email, env.keyEquals) == NoneTaken;
      if GenSalt in failing || HashPassword in failing {
        return InternalError(InternalErrorMessage);
      }
      var securePass := env.hash(password, salt);
      if InsertUser in failing {
        return InternalError(InternalErrorMessage);
      }
      Insert(Row(username, email, securePass));
      outcome := Created(SignedUpMessage);
    }
  }

  /** A body that fails validation gets its error list and a 400; the table is
      neither read (the answer is the same for every table and every failing
      store call) nor written. */
  lemma InvalidBodyNeverReachesStore(users: seq<Row>, body: SignupBody, salt: string,
                                     failing: set<Step>, env: Collaborators)
    requires !Acceptable(body, env.isEmail)
    ensures SignupTransition(users, body, salt, failing, env)
         == Transition(ValidationFailed(Validate(body, env.isEmail)), users)
    ensures Status(SignupTransition(users, body, salt, failing, env).outcome) == 400
  {
  }

  /** A new account is created exactly when the body is acceptable, the table
      holds neither the trimmed username nor the email, and no store or bcrypt
      call throws. */
  lemma CreatedExactlyWhenFree(users: seq<Row>, body: SignupBody, salt: string,
                               failing: set<Step>, env: Collaborators)
    requires Reflexive(env.keyEquals)
    ensures SignupTransition(users, body, salt, failing, env).outcome.Created? <==>
              Acceptable(body, env.isEmail) && failing == {}
              && !HoldsUsername(users, Trim(body.username)) && !HoldsEmail(users, body.email)
  {
    var t := SignupTransition(users, body, salt, failing, env);
    if t.outcome.Created? {
      assert failing == {} by {
        forall s | s in failing ensures false {
          match s
          case SelectUsers =>
          case GenSalt =>
          case HashPassword =>
          case InsertUser =>
        }
      }
    }
  }

  /** For an acceptable body whose SELECT succeeds, a table that already holds
      the trimmed username or the email gets the conflict message chosen by
      the fixed priority, and nothing is hashed or inserted. */
  lemma ConflictFollowsPriority(users: seq<Row>, body: SignupBody, salt: string,
                                failing: set<Step>, env: Collaborators)
    requires Reflexive(env.keyEquals)
    requires Acceptable(body, env.isEmail) && SelectUsers !in failing
    ensures var t := SignupTransition(users, body, salt, failing, env);
            var u, e := HoldsUsername(users, Trim(body.username)), HoldsEmail(users, body.email);
            (u && e ==> t == Transition(Conflict(BothTakenMessage), users))
            && (!u && e ==> t == Transition(Conflict(EmailTakenMessage), users))
            && (u && !e ==> t == Transition(Conflict(UsernameTakenMessage), users))
  {
  }

  /** The answer is 500 "Internal Server Error" exactly when the body is
      acceptable and an awaited call throws: the SELECT, or one of the calls
      after it when no conflict was found first. */
  lemma InternalErrorExactlyWhenACallThrows(users: seq<Row>, body: SignupBody, salt: string,
                                            failing: set<Step>, env: Collaborators)
    requires Reflexive(env.keyEquals)
    ensures SignupTransition(users, body, salt, failing, env).outcome == InternalError(InternalErrorMessage)
        <==> Acceptable(body, env.isEmail) && failing != {}
             && (SelectUsers in failing
                 || (!HoldsUsername(users, Trim(body.username)) && !HoldsEmail(users, body.email)))
  {
    var username := Trim(body.username);
    LaterStepThrows(failing);
    assert Lookup(users, username, body.email, env.keyEquals) == NoneTaken
       <==> !HoldsUsername(users, username) && !HoldsEmail(users, body.email);
  }

  /** When the SELECT does not throw, some call throws exactly when one of
      the calls after it does. */
  lemma LaterStepThrows(failing: set<Step>)
    ensures SelectUsers !in failing ==>
              (failing != {} <==> GenSalt in failing || HashPassword in failing || InsertUser in failing)
  {
    if failing != {} && SelectUsers !in failing {
      var s :| s in failing;
      assert s == GenSalt || s == HashPassword || s == InsertUser;
    }
  }

  /** A conflict is decided before bcrypt and the INSERT run: its answer and
      table do not depend on the salt, the hash function or whether the later
      calls would throw. */
  lemma ConflictPrecedesHashing(users: seq<Row>, body: SignupBody, salt1: string, salt2: string,
                                failing1: set<Step>, failing2: set<Step>,
                                env1: Collaborators, env2: Collaborators)
    requires env1.isEmail == env2.isEmail && env1.keyEquals == env2.keyEquals
    requires SelectUsers in failing1 <==> SelectUsers in failing2
    requires SignupTransition(users, body, salt1, failing1, env1).outcome.Conflict?
    ensures SignupTransition(users, body, salt1, failing1, env1)
         == SignupTransition(users, body, salt2, failing2, env2)
  {
  }

  /** Under a store comparison coarser than `===` (a case-insensitive
      collation matching "Alice" to "alice", say) the SELECT can return a row
      that holds neither the exact username nor the exact email; then neither
      flag is set, the handler does not return, and it inserts the new row. */
  lemma RowsWithoutFlagsFallThrough(users: seq<Row>, i: nat, body: SignupBody, salt: string,
                                    env: Collaborators)
    requires Acceptable(body, env.isEmail)
    requires i < |users| && env.keyEquals(users[i].username, Trim(body.username))
    requires !HoldsUsername(users, Trim(body.username)) && !HoldsEmail(users, body.email)
    ensures Select(users, Trim(body.username), body.email, env.keyEquals) != []
    ensures SignupTransition(users, body, salt, {}, env)
         == Transition(Created(SignedUpMessage), users + [NewRow(body, salt, env)])
  {
    var found := Select(users, Trim(body.username), body.email, env.keyEquals);
    assert users[i] in found by {
      assert users[i] in users;
    }
  }

  /** One row holding the username and another row holding the email report
      both as taken, and the table is left as it was. */
  lemma SeparateRowsReportBothTaken(users: seq<Row>, i: nat, j: nat, body: SignupBody, salt: string,
                                    failing: set<Step>, env: Collaborators)
    requires Reflexive(env.keyEquals)
    requires Acceptable(body, env.isEmail) && SelectUsers !in failing
    requires i < |users| && users[i].username == Trim(body.username)
    requires j < |users| && users[j].email == body.email
    ensures SignupTransition(users, body, salt, failing, env) == Transition(Conflict(BothTakenMessage), users)
  {
    assert users[i] in users && users[j] in users;
    ConflictFollowsPriority(users, body, salt, failing, env);
  }

  /** The answer never carries an accepted password or its hash: two requests
      that differ only in their passwords (both long enough) and salts get the
      same answer, whatever the hash function. */
  lemma AnswerHidesAcceptedPassword(users: seq<Row>, body: SignupBody, password2: string,
                                    salt1: string, salt2: string, failing: set<Step>,
                                    env: Collaborators, hash2: (string, string) -> string)
    requires |body.password| >= MinPasswordLength && |password2| >= MinPasswordLength
    ensures SignupTransition(users, body, salt1, failing, env).outcome
         == SignupTransition(users, body.(password := password2), salt2, failing, env.(hash := hash2)).outcome
  {
    var body2, env2 := body.(password := password2), env.(hash := hash2);
    assert PasswordChain(body.password) == [] == PasswordChain(password2);
    assert Validate(body, env.isEmail) == Validate(body2, env2.isEmail);
  }

  /** A rejected password is echoed back: the password's error carries the
      value that was checked. */
  lemma ShortPasswordIsEchoed(users: seq<Row>, body: SignupBody, salt: string,
                              failing: set<Step>, env: Collaborators)
    requires |body.password| < MinPasswordLength
    ensures var o := SignupTransition(users, body, salt, failing, env).outcome;
            o.ValidationFailed? && FieldError(Password, body.password, PasswordTooShort) in o.errors
  {
  }

  /** Every signup keeps a duplicate-free table duplicate-free. */
  lemma SignupKeepsUnique(users: seq<Row>, body: SignupBody, salt: string,
                          failing: set<Step>, env: Collaborators)
    requires Reflexive(env.keyEquals) && Unique(users)
    ensures Unique(SignupTransition(users, body, salt, failing, env).users)
  {
    if SignupTransition(users, body, salt, failing, env).outcome.Created? {
      CreatedExactlyWhenFree(users, body, salt, failing, env);
      AppendKeepsUnique(users, NewRow(body, salt, env));
    }
  }
}
