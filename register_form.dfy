/** The registration page's checks: the errors `validateForm` sets, the email pattern it
    tests, and the one-field update of the change handler. */
module RegisterForm {
  import opened Wrappers
  import Text

  /** The five inputs of the page. */
  datatype RegisterFields = RegisterFields(
    firstName: string, lastName: string, email: string, password: string, confirmPassword: string)

  const EmptyFields := RegisterFields("", "", "", "", "")

  /** The `name` attribute of an input (`firstName`, `lastName`, `email`, `password`,
      `confirmPassword`), which is also its key in the form state and in the errors
      object. */
  datatype FieldName = FirstName | LastName | Email | Password | ConfirmPassword

  function Get(f: RegisterFields, n: FieldName): string {
    match n
    case FirstName => f.firstName
    case LastName => f.lastName
    case Email => f.email
    case Password => f.password
    case ConfirmPassword => f.confirmPassword
  }

  /** `{ ...prev, [name]: value }`. */
  function Set(f: RegisterFields, n: FieldName, value: string): (r: RegisterFields)
    ensures forall m :: Get(r, m) == if m == n then value else Get(f, m)
  {
    match n
    case FirstName => f.(firstName := value)
    case LastName => f.(lastName := value)
    case Email => f.(email := value)
    case Password => f.(password := value)
    case ConfirmPassword => f.(confirmPassword := value)
  }

  // ------------------------------------------------------------ change handler

  datatype RegisterState = RegisterState(form: RegisterFields, errors: map<FieldName, Message>)

  /** `handleChange`: the named input takes the value; if that input's error is set to a
      non-empty message, it becomes the empty message. Every other input and every other
      error is unchanged, and no error key is added or removed. */
  function HandleChange(s: RegisterState, n: FieldName, value: string): (r: RegisterState)
    ensures forall m :: Get(r.form, m) == if m == n then value else Get(s.form, m)
    ensures r.errors.Keys == s.errors.Keys
    ensures n in s.errors ==> r.errors[n] == Cleared
    ensures forall k :: k in s.errors && k != n ==> r.errors[k] == s.errors[k]
  {
    var form := Set(s.form, n, value);
    if n in s.errors && s.errors[n] != Cleared then RegisterState(form, s.errors[n := Cleared])
    else RegisterState(form, s.errors)
  }

  /** Typing the same text twice leaves the state as typing it once. */
  lemma HandleChangeIdempotent(s: RegisterState, n: FieldName, value: string)
    ensures HandleChange(HandleChange(s, n, value), n, value) == HandleChange(s, n, value)
  {
    var once := HandleChange(s, n, value);
    var twice := HandleChange(once, n, value);
    assert Get(twice.form, FirstName) == Get(once.form, FirstName);
    assert Get(twice.form, LastName) == Get(once.form, LastName);
    assert Get(twice.form, Email) == Get(once.form, Email);
    assert Get(twice.form, Password) == Get(once.form, Password);
    assert Get(twice.form, ConfirmPassword) == Get(once.form, ConfirmPassword);
    assert twice.errors == once.errors;
  }

  // ------------------------------------------------------------ email pattern

  /** The class `[^\s@]`. */
  predicate EmailChar(c: char) {
    !Text.IsSpace(c) && c != '@'
  }

  predicate AllEmailChars(s: string) {
    forall k :: 0 <= k < |s| ==> EmailChar(s[k])
  }

  /** `s` matches `^[^\s@]+@[^\s@]+\.[^\s@]+$`: it splits at an `@` at position `i` and a
      `.` at position `j` into three non-empty runs of characters that are neither white
      space nor `@`. */
  ghost predicate MatchesEmailPattern(s: string) {
    exists i, j :: 0 < i && i + 1 < j < |s| - 1 && s[i] == '@' && s[j] == '.'
      && AllEmailChars(s[..i]) && AllEmailChars(s[i + 1..j]) && AllEmailChars(s[j + 1..])
  }

  /** The domain part has a `.` that is neither its first nor its last character. */
  predicate DotInside(d: string) {
    |d| >= 3 && Text.IndexOf(d[1..|d| - 1], '.').Some?
  }

  /** The test the form runs, in plain terms: no white space anywhere, an `@` that is not
      the first character, no second `@`, and a `.` inside the domain part. */
  predicate EmailShaped(s: string) {
    && (forall k :: 0 <= k < |s| ==> !Text.IsSpace(s[k]))
    && match Text.IndexOf(s, '@')
       case None => false
       case Some(i) => 0 < i && Text.IndexOf(s[i + 1..], '@').None? && DotInside(s[i + 1..])
  }

  /** The plain test accepts exactly the strings the regular expression matches. */
  lemma EmailShapedIffPattern(s: string)
    ensures EmailShaped(s) <==> MatchesEmailPattern(s)
  {
    if MatchesEmailPattern(s) {
      var i, j :| 0 < i && i + 1 < j < |s| - 1 && s[i] == '@' && s[j] == '.'
        && AllEmailChars(s[..i]) && AllEmailChars(s[i + 1..j]) && AllEmailChars(s[j + 1..]);
      PatternIsShaped(s, i, j);
    }
    if EmailShaped(s) {
      ShapedMatchesPattern(s);
    }
  }

  lemma PatternIsShaped(s: string, i: int, j: int)
    requires 0 < i && i + 1 < j < |s| - 1 && s[i] == '@' && s[j] == '.'
    requires AllEmailChars(s[..i]) && AllEmailChars(s[i + 1..j]) && AllEmailChars(s[j + 1..])
    ensures EmailShaped(s)
  {
    forall k | 0 <= k < |s| ensures EmailChar(s[k]) || k == i || k == j {
      if k < i {
        assert s[..i][k] == s[k];
      } else if i < k < j {
        assert s[i + 1..j][k - i - 1] == s[k];
      } else if j < k {
        assert s[j + 1..][k - j - 1] == s[k];
      }
    }
    assert Text.IndexOf(s, '@') == Some(i);
    var d := s[i + 1..];
    assert forall k :: 0 <= k < |d| ==> d[k] == s[i + 1 + k];
    assert Text.IndexOf(d, '@').None?;
    var inner := d[1..|d| - 1];
    assert inner[j - i - 2] == '.';
    assert DotInside(d);
  }

  lemma ShapedMatchesPattern(s: string)
    requires EmailShaped(s)
    ensures MatchesEmailPattern(s)
  {
    var i := Text.IndexOf(s, '@').value;
    var d := s[i + 1..];
    var m := Text.IndexOf(d[1..|d| - 1], '.').value;
    var j := i + 2 + m;
    assert s[j] == '.' by {
      assert d[1..|d| - 1][m] == d[m + 1] == s[j];
    }
    assert forall k :: 0 <= k < |d| ==> d[k] == s[i + 1 + k];
    assert AllEmailChars(s[..i]);
    assert AllEmailChars(s[i + 1..j]);
    assert AllEmailChars(s[j + 1..]);
  }

  // ------------------------------------------------------------ validation

  /** The messages the page shows under an input. `Cleared` is the empty message an input's
      error becomes once the user types in it. */
  datatype Message =
    | FirstNameRequired | LastNameRequired | EmailRequired | EmailInvalid
    | PasswordRequired | PasswordTooShort | PasswordsDiffer | Cleared

  /** The text of each message. Only `Cleared` is empty, so only it is falsy. */
  function Wording(m: Message): (text: string)
    ensures text == "" <==> m == Cleared
  {
    match m
    case FirstNameRequired => "First name is required"
    case LastNameRequired => "Last name is required"
    case EmailRequired => "Email is required"
    case EmailInvalid => "Please enter a valid email"
    case PasswordRequired => "Password is required"
    case PasswordTooShort => "Password must be at least 8 characters"
    case PasswordsDiffer => "Passwords do not match"
    case Cleared => ""
  }

  /** What the page accepts: both names not blank, an email matching the pattern, a
      password of at least 8 characters, and the same password typed twice. */
  ghost predicate RegistrationValid(form: RegisterFields) {
    && !Text.IsBlank(form.firstName)
    && !Text.IsBlank(form.lastName)
    && MatchesEmailPattern(form.email)
    && |form.password| >= 8
    && form.password == form.confirmPassword
  }

  /** The message for a name: set exactly when the name is blank. */
  function NameError(name: string, message: Message): (e: Option<Message>)
    ensures e.Some? <==> Text.IsBlank(name)
    ensures e.Some? ==> e.value == message
  {
    if Text.IsBlank(name) then Some(message) else None
  }

  /** The message for the email: "required" when it is blank, "invalid" when it is not
      blank but does not match the pattern, none when it matches. */
  function EmailError(email: string): (e: Option<Message>)
    ensures e.Some? <==> !MatchesEmailPattern(email)
    ensures Text.IsBlank(email) ==> e == Some(EmailRequired)
    ensures !Text.IsBlank(email) && !MatchesEmailPattern(email) ==> e == Some(EmailInvalid)
  {
    EmailShapedIffPattern(email);
    if Text.IsBlank(email) then
      BlankIsNoEmail(email);
      Some(EmailRequired)
    else if !EmailShaped(email) then Some(EmailInvalid)
    else None
  }

  /** The message for the password: "required" when it is empty, "too short" when it has
      one to seven characters. */
  function PasswordError(password: string): (e: Option<Message>)
    ensures e.Some? <==> |password| < 8
    ensures password == "" ==> e == Some(PasswordRequired)
    ensures 0 < |password| < 8 ==> e == Some(PasswordTooShort)
  {
    if password == "" then Some(PasswordRequired)
    else if |password| < 8 then Some(PasswordTooShort)
    else None
  }

  /** The message for the confirmation: set exactly when the two passwords differ. */
  function ConfirmError(password: string, confirmPassword: string): (e: Option<Message>)
    ensures e.Some? <==> password != confirmPassword
    ensures e.Some? ==> e.value == PasswordsDiffer
  {
    if password != confirmPassword then Some(PasswordsDiffer) else None
  }

  /** `newErrors[n] = message` when there is a message; the errors as they were
      otherwise. */
  function Put(errors: map<FieldName, Message>, n: FieldName, e: Option<Message>): (r: map<FieldName, Message>)
    ensures r.Keys == if e.Some? then errors.Keys + {n} else errors.Keys
    ensures forall m :: m in r ==> r[m] == if m == n && e.Some? then e.value else errors[m]
  {
    if e.Some? then errors[n := e.value] else errors
  }

  /** `validateForm`: each field's errors and messages, the email format checked only once
      the email is not blank, the length only once the password is not empty, and the
      confirmation compared on its own. The form is valid exactly when no error was set. */
  method ValidateRegistration(form: RegisterFields) returns (errors: map<FieldName, Message>, valid: bool)
    ensures FirstName in errors <==> Text.IsBlank(form.firstName)
    ensures FirstName in errors ==> errors[FirstName] == FirstNameRequired
    ensures LastName in errors <==> Text.IsBlank(form.lastName)
    ensures LastName in errors ==> errors[LastName] == LastNameRequired
    ensures Email in errors <==> !MatchesEmailPattern(form.email)
    ensures Text.IsBlank(form.email) ==> errors[Email] == EmailRequired
    ensures !Text.IsBlank(form.email) && !MatchesEmailPattern(form.email) ==> errors[Email] == EmailInvalid
    ensures Password in errors <==> |form.password| < 8
    ensures form.password == "" ==> errors[Password] == PasswordRequired
    ensures 0 < |form.password| < 8 ==> errors[Password] == PasswordTooShort
    ensures ConfirmPassword in errors <==> form.password != form.confirmPassword
    ensures ConfirmPassword in errors ==> errors[ConfirmPassword] == PasswordsDiffer
    ensures valid <==> errors == map[]
    ensures valid <==> RegistrationValid(form)
  {
    var firstName := NameError(form.firstName, FirstNameRequired);
    var lastName := NameError(form.lastName, LastNameRequired);
    var email := EmailError(form.email);
    var password := PasswordError(form.password);
    var confirm := ConfirmError(form.password, form.confirmPassword);
    errors := map[];
    errors := Put(errors, FirstName, firstName);
    errors := Put(errors, LastName, lastName);
    errors := Put(errors, Email, email);
    errors := Put(errors, Password, password);
    errors := Put(errors, ConfirmPassword, confirm);
    // `Object.keys(newErrors).length === 0`
    valid := errors == map[];
  }

  /** A blank email cannot match the pattern: the pattern needs a character that is not
      white space. */
  lemma BlankIsNoEmail(s: string)
    requires Text.IsBlank(s)
    ensures !MatchesEmailPattern(s)
  {
    assert Text.AllSpace(s);
    forall i | 0 < i <= |s| ensures !AllEmailChars(s[..i]) {
      assert s[..i][0] == s[0];
    }
  }

  // ------------------------------------------------------------ pattern examples

  lemma ShortestEmail()
    ensures MatchesEmailPattern("a@b.c")
  {
    var s := "a" + "@" + "b" + "." + "c";
    assert s[1] == '@' && s[3] == '.';
    assert AllEmailChars(s[..1]) && AllEmailChars(s[2..3]) && AllEmailChars(s[4..]);
    assert s == "a@b.c";
  }

  /** The dot may not open the domain. */
  lemma DotOpeningDomain()
    ensures !MatchesEmailPattern("a@.c")
  {
    var s := "a" + "@" + "." + "c";
    assert s == "a@.c";
    assert |s| == 4;
  }

  /** The dot may not close the domain. */
  lemma DotClosingDomain()
    ensures !MatchesEmailPattern("a@bc.")
  {
    var s := "a" + "@" + "bc" + ".";
    assert s == "a@bc.";
    assert forall j :: 0 <= j < |s| && s[j] == '.' ==> j == |s| - 1;
  }

  /** A second `@` is refused even where each part looks like an address. */
  lemma TwoAtSigns()
    ensures !MatchesEmailPattern("a@b@c.d")
  {
    var s := "a" + "@" + "b" + "@" + "c" + "." + "d";
    assert s == "a@b@c.d";
    EmailShapedIffPattern(s);
    assert Text.IndexOf(s, '@') == Some(1);
    assert s[2..][1] == '@';
  }

  /** White space anywhere is refused. */
  lemma SpaceInLocalPart()
    ensures !MatchesEmailPattern("a b@c.d")
  {
    var s := "a" + " " + "b" + "@" + "c" + "." + "d";
    assert s == "a b@c.d";
    EmailShapedIffPattern(s);
    assert Text.IsSpace(s[1]);
  }
}
