/**
 * The express-validator chains of `POST /signup`: one chain per body field,
 * run in order, with no `bail()`, so every rule of every chain runs and each
 * failing rule contributes its own error ("collect-all").
 */
module Validators {
  import opened JsString

  /** The JSON body of a signup request. */
  datatype SignupBody = SignupBody(username: string, email: string, password: string)

  /** The three body fields the chains check. */
  datatype Field = Username | Email | Password

  /** The four rules of the chains, in chain order. */
  datatype Rule = UsernameRequired | UsernameTooShort | InvalidEmail | PasswordTooShort

  /** One entry of `validationResult(req).array()`: the field, the
      (sanitized) value that was checked and the rule that failed; the JSON
      object carries `Path(field)` and `Message(rule)`. */
  datatype FieldError = FieldError(field: Field, value: string, rule: Rule)

  /** The field each rule checks, whose `path` its error carries. */
  function FieldOf(r: Rule): Field {
    match r
    case UsernameRequired => Username
    case UsernameTooShort => Username
    case InvalidEmail => Email
    case PasswordTooShort => Password
  }

  /** The `path` of a field's errors. */
  function Path(f: Field): string {
    match f
    case Username => "username"
    case Email => "email"
    case Password => "password"
  }

  /** The `withMessage(..)` text of each rule. */
  function Message(r: Rule): string {
    match r
    case UsernameRequired => "Username is required"
    case UsernameTooShort => "Username must be at least 4 characters"
    case InvalidEmail => "Invalid email address"
    case PasswordTooShort => "Password must be at least 8 characters"
  }

  const MinUsernameLength := 4
  const MinPasswordLength := 8

  /** The reference definition of an acceptable body: a username of at least
      four characters once trimmed, a syntactically valid email and a password
      of at least eight characters. (The `notEmpty` rule adds nothing here:
      it is implied by the length rule.) */
  predicate Acceptable(body: SignupBody, isEmail: string -> bool) {
    |Trim(body.username)| >= MinUsernameLength && isEmail(body.email)
    && |body.password| >= MinPasswordLength
  }

  /** Some error reports `rule`. */
  predicate Reported(errors: seq<FieldError>, rule: Rule) {
    exists e :: e in errors && e.rule == rule
  }

  /** `body('username').trim().notEmpty().withMessage(..).isLength({min: 4}).withMessage(..)`,
      on the value the sanitizer has already trimmed. */
  function UsernameChain(u: string): (errors: seq<FieldError>)
    ensures errors == [] <==> |u| >= MinUsernameLength
  {
    (if u == [] then [FieldError(Username, u, UsernameRequired)] else [])
    + (if |u| < MinUsernameLength then [FieldError(Username, u, UsernameTooShort)] else [])
  }

  /** `body('email').isEmail().withMessage(..)`. */
  function EmailChain(email: string, isEmail: string -> bool): (errors: seq<FieldError>)
    ensures errors == [] <==> isEmail(email)
  {
    if isEmail(email) then [] else [FieldError(Email, email, InvalidEmail)]
  }

  /** `body('password').isLength({min: 8}).withMessage(..)`. */
  function PasswordChain(password: string): (errors: seq<FieldError>)
    ensures errors == [] <==> |password| >= MinPasswordLength
  {
    if |password| < MinPasswordLength then [FieldError(Password, password, PasswordTooShort)] else []
  }

  /** `validationResult(req).array()` after the three chains have run: empty
      exactly for acceptable bodies. */
  function Validate(body: SignupBody, isEmail: string -> bool): (errors: seq<FieldError>)
    ensures errors == [] <==> Acceptable(body, isEmail)
  {
    UsernameChain(Trim(body.username)) + EmailChain(body.email, isEmail) + PasswordChain(body.password)
  }

  /** An accepted username, as the rules saw it, has at least four
      characters and no whitespace at either end. */
  lemma AcceptedUsernameIsTrimmed(body: SignupBody, isEmail: string -> bool)
    requires Acceptable(body, isEmail)
    ensures var u := Trim(body.username);
            |u| >= MinUsernameLength && !IsWhitespace(u[0]) && !IsWhitespace(u[|u| - 1])
  {
    var u := Trim(body.username);
    assert u != [];
  }

  /** Collect-all: each of the four rules is reported exactly when it fails,
      whatever the other rules say. */
  lemma EachFailingRuleReported(body: SignupBody, isEmail: string -> bool)
    ensures var errors := Validate(body, isEmail);
            (Reported(errors, UsernameRequired) <==> IsBlank(body.username))
            && (Reported(errors, UsernameTooShort) <==> |Trim(body.username)| < MinUsernameLength)
            && (Reported(errors, InvalidEmail) <==> !isEmail(body.email))
            && (Reported(errors, PasswordTooShort) <==> |body.password| < MinPasswordLength)
  {
    var t := Trim(body.username);
    var u, m, p := UsernameChain(t), EmailChain(body.email, isEmail), PasswordChain(body.password);
    assert Validate(body, isEmail) == u + m + p;
    UsernameChainReports(t);
    EmailChainReports(body.email, isEmail);
    PasswordChainReports(body.password);
    ReportedInConcat(u, m, p, UsernameRequired);
    ReportedInConcat(u, m, p, UsernameTooShort);
    ReportedInConcat(u, m, p, InvalidEmail);
    ReportedInConcat(u, m, p, PasswordTooShort);
  }

  /** The position of each rule in chain order. */
  function Rank(r: Rule): nat {
    match r
    case UsernameRequired => 0
    case UsernameTooShort => 1
    case InvalidEmail => 2
    case PasswordTooShort => 3
  }

  /** The errors' rules strictly follow chain order. */
  ghost predicate InRuleOrder(errors: seq<FieldError>) {
    forall i, j :: 0 <= i < j < |errors| ==> Rank(errors[i].rule) < Rank(errors[j].rule)
  }

  /** The errors come in chain order, so each failing rule gives exactly one
      error. */
  lemma ErrorsInRuleOrder(body: SignupBody, isEmail: string -> bool)
    ensures InRuleOrder(Validate(body, isEmail))
    ensures var errors := Validate(body, isEmail);
            forall i, j :: 0 <= i < j < |errors| ==> errors[i].rule != errors[j].rule
  {
    var t := Trim(body.username);
    ChainsInRuleOrder(t, body.email, isEmail, body.password);
  }

  /** The three chains, run on the values they check, report in chain order. */
  lemma ChainsInRuleOrder(t: string, email: string, isEmail: string -> bool, password: string)
    ensures var errors := UsernameChain(t) + EmailChain(email, isEmail) + PasswordChain(password);
            InRuleOrder(errors)
            && forall i, j :: 0 <= i < j < |errors| ==> errors[i].rule != errors[j].rule
  {
    var u, m, p := UsernameChain(t), EmailChain(email, isEmail), PasswordChain(password);
    assert InRuleOrder(u) && forall x :: x in u ==> Rank(x.rule) <= 1 by {
      if t == [] {
        assert u == [FieldError(Username, t, UsernameRequired), FieldError(Username, t, UsernameTooShort)];
      }
    }
    assert forall y :: y in m ==> Rank(y.rule) == 2;
    assert forall y :: y in p ==> Rank(y.rule) == 3;
    ConcatInRuleOrder(u, m);
    assert forall x :: x in u + m ==> Rank(x.rule) <= 2;
    ConcatInRuleOrder(u + m, p);
    InRuleOrderDistinct(u + m + p);
  }

  /** Chain order admits no rule twice. */
  lemma InRuleOrderDistinct(errors: seq<FieldError>)
    requires InRuleOrder(errors)
    ensures forall i, j :: 0 <= i < j < |errors| ==> errors[i].rule != errors[j].rule
  {
    forall i, j | 0 <= i < j < |errors| ensures errors[i].rule != errors[j].rule {
      assert Rank(errors[i].rule) < Rank(errors[j].rule);
    }
  }

  /** Two lists in chain order whose rules all come one before the other
      make a list in chain order. */
  lemma ConcatInRuleOrder(a: seq<FieldError>, b: seq<FieldError>)
    requires InRuleOrder(a) && InRuleOrder(b)
    requires forall x, y :: x in a && y in b ==> Rank(x.rule) < Rank(y.rule)
    ensures InRuleOrder(a + b)
  {
    var c := a + b;
    forall i, j | 0 <= i < j < |c| ensures Rank(c[i].rule) < Rank(c[j].rule) {
      if j < |a| {
        assert c[i] == a[i] && c[j] == a[j];
      } else if i >= |a| {
        assert c[i] == b[i - |a|] && c[j] == b[j - |a|];
      } else {
        assert c[i] == a[i] && a[i] in a;
        assert c[j] == b[j - |a|] && b[j - |a|] in b;
      }
    }
  }

  /** The username chain reports each of its two rules exactly when it fails,
      and nothing else. */
  lemma UsernameChainReports(u: string)
    ensures Reported(UsernameChain(u), UsernameRequired) <==> u == []
    ensures Reported(UsernameChain(u), UsernameTooShort) <==> |u| < MinUsernameLength
    ensures !Reported(UsernameChain(u), InvalidEmail) && !Reported(UsernameChain(u), PasswordTooShort)
  {
    var errors := UsernameChain(u);
    if u == [] {
      assert errors[0].rule == UsernameRequired && errors[1].rule == UsernameTooShort;
    } else if |u| < MinUsernameLength {
      assert errors == [FieldError(Username, u, UsernameTooShort)];
    } else {
      assert errors == [];
    }
  }

  /** The email chain reports its rule exactly when it fails, and nothing else. */
  lemma EmailChainReports(email: string, isEmail: string -> bool)
    ensures Reported(EmailChain(email, isEmail), InvalidEmail) <==> !isEmail(email)
    ensures forall r :: r != InvalidEmail ==> !Reported(EmailChain(email, isEmail), r)
  {
    if !isEmail(email) {
      assert EmailChain(email, isEmail)[0].rule == InvalidEmail;
    }
  }

  /** The password chain reports its rule exactly when it fails, and nothing else. */
  lemma PasswordChainReports(password: string)
    ensures Reported(PasswordChain(password), PasswordTooShort) <==> |password| < MinPasswordLength
    ensures forall r :: r != PasswordTooShort ==> !Reported(PasswordChain(password), r)
  {
    if |password| < MinPasswordLength {
      assert PasswordChain(password)[0].rule == PasswordTooShort;
    }
  }

  /** Every error sits under the field its rule checks and carries the value
      that rule saw: the trimmed username, the email as given, the password
      as given. */
  lemma ErrorsCarryCheckedValues(body: SignupBody, isEmail: string -> bool)
    ensures forall e :: e in Validate(body, isEmail) ==>
              e.field == FieldOf(e.rule) && e.value == CheckedValue(body, e.field)
  {
    ChainsCarryCheckedValues(Trim(body.username), body.email, isEmail, body.password);
  }

  /** The three chains, run on the values they check, file each error under
      its rule's field with the value of that field. */
  lemma ChainsCarryCheckedValues(t: string, email: string, isEmail: string -> bool, password: string)
    ensures forall e :: e in UsernameChain(t) + EmailChain(email, isEmail) + PasswordChain(password) ==>
              e.field == FieldOf(e.rule)
              && e.value == (match e.field case Username => t case Email => email case Password => password)
  {
    var u, m, p := UsernameChain(t), EmailChain(email, isEmail), PasswordChain(password);
    forall e: FieldError | e in u + m + p
      ensures e.field == FieldOf(e.rule)
              && e.value == (match e.field case Username => t case Email => email case Password => password)
    {
      if e in u {
        assert e.field == Username && e.value == t;
        assert e.rule == UsernameRequired || e.rule == UsernameTooShort;
      } else if e in m {
        assert e.field == Email && e.value == email && e.rule == InvalidEmail;
      } else {
        assert e in p;
        assert e.field == Password && e.value == password && e.rule == PasswordTooShort;
      }
    }
  }

  /** The value a field's rules see: the username after `trim()`, the other
      fields as sent. */
  function CheckedValue(body: SignupBody, f: Field): string {
    match f
    case Username => Trim(body.username)
    case Email => body.email
    case Password => body.password
  }

  /** A rule is reported by the whole result exactly when one of the three
      chains reports it. */
  lemma ReportedInConcat(a: seq<FieldError>, b: seq<FieldError>, c: seq<FieldError>, rule: Rule)
    ensures Reported(a + b + c, rule) <==> Reported(a, rule) || Reported(b, rule) || Reported(c, rule)
  {
    if Reported(a + b + c, rule) {
      var e :| e in a + b + c && e.rule == rule;
      assert e in a || e in b || e in c;
    }
  }

  /** A username that is too short once trimmed (like "ab"), an invalid email
      and a password shorter than eight characters (like "12345") give three
      errors in one response, in chain order, not just the first. */
  lemma CollectsEveryFailure(body: SignupBody, isEmail: string -> bool)
    requires 0 < |Trim(body.username)| < MinUsernameLength
    requires !isEmail(body.email) && |body.password| < MinPasswordLength
    ensures Validate(body, isEmail) ==
      [ FieldError(Username, Trim(body.username), UsernameTooShort),
        FieldError(Email, body.email, InvalidEmail),
        FieldError(Password, body.password, PasswordTooShort) ]
  {
  }

  /** An empty or whitespace-only username fails both username rules: the
      chain has no `bail()`, so the length rule runs after `notEmpty` failed. */
  lemma BlankUsernameFailsBothRules(body: SignupBody, isEmail: string -> bool)
    requires IsBlank(body.username)
    ensures Validate(body, isEmail)[..2] ==
      [ FieldError(Username, "", UsernameRequired), FieldError(Username, "", UsernameTooShort) ]
    ensures Path(Validate(body, isEmail)[0].field) == "username"
    ensures Message(Validate(body, isEmail)[0].rule) == "Username is required"
    ensures Message(Validate(body, isEmail)[1].rule) == "Username must be at least 4 characters"
  {
  }

  /** The length rule is applied after trimming: whitespace around the
      username changes nothing in the validation result. */
  lemma PaddingNeverCounts(w1: string, u: string, w2: string, email: string, password: string,
                           isEmail: string -> bool)
    requires IsBlank(w1) && IsBlank(w2)
    ensures Validate(SignupBody(w1 + u + w2, email, password), isEmail)
         == Validate(SignupBody(u, email, password), isEmail)
  {
    TrimIgnoresPadding(w1, u, w2);
  }
}
