/** The two forms whose input is checked in a fixed order before anything
    is done: the Add Patient form of `add_patient_ui` and the login form of
    the main flow. Each shows the message of the first check that fails. */
module Forms {
  import opened Wrappers
  import opened PyText
  import opened EmailFormat
  import opened Records
  import opened Store

  /** One branch of an `if ... elif ...` chain: whether its condition holds,
      and the error it shows. */
  datatype Check = Check(failed: bool, message: string)

  ghost predicate FirstFailedAt(checks: seq<Check>, i: int) {
    0 <= i < |checks| && checks[i].failed
    && forall j :: 0 <= j < i ==> !checks[j].failed
  }

  /** The position of the first failing check, if any. */
  function FirstFailedIndex(checks: seq<Check>): (r: Option<nat>)
    ensures r.None? <==> forall i :: 0 <= i < |checks| ==> !checks[i].failed
    ensures r.Some? ==> FirstFailedAt(checks, r.value)
  {
    if checks == [] then None
    else if checks[0].failed then Some(0)
    else
      var rest := FirstFailedIndex(checks[1..]);
      assert forall i :: 1 <= i < |checks| ==> checks[i] == checks[1..][i - 1];
      match rest
      case None => None
      case Some(k) => Some(k + 1)
  }

  /** The message the chain shows, if a check fails. */
  function FirstFailure(checks: seq<Check>): (r: Option<string>)
    ensures r.None? <==> forall i :: 0 <= i < |checks| ==> !checks[i].failed
    ensures r.Some? ==> exists i :: FirstFailedAt(checks, i) && checks[i].message == r.value
  {
    match FirstFailedIndex(checks)
    case None => None
    case Some(i) => Some(checks[i].message)
  }

  /** A string `is_valid_email` accepts is never blank, since it holds an
      `@`: the "Email is required." branch catches only what the next branch
      would also reject. */
  lemma ValidEmailNotBlank(email: string)
    ensures RegexAccepts(email) ==> Strip(email) != []
  {
    if RegexAccepts(email) {
      var body := if MatchesPattern(email) then email else email[..|email| - 1];
      var at, dot :| CutsAt(body, at, dot);
      assert email[at] == '@';
      StripEmptyIffBlank(email);
    }
  }

  // ------------------------------------------------------------ Add Patient

  const NameRequired: string := "Name is required."
  const EmailRequired: string := "Email is required."
  const InvalidEmailFormat: string := "Invalid email format."
  const GenderRequired: string := "Please select a valid gender."
  const MobileRequired: string := "Mobile number is required."
  const PasswordRequired: string := "Password is required."
  const PatientAdded: string := "\U{2705} Patient added successfully."
  const EmailExists: string := "\U{274C} Email already exists."

  /** The checks of the Add Patient button, in order. */
  function AddPatientChecks(name: string, email: string, gender: string, phone: string,
                            password: string): (checks: seq<Check>)
    ensures |checks| == 6
    ensures checks[2].failed <==> !RegexAccepts(email)
    ensures checks[1].failed ==> checks[2].failed
  {
    var blank, invalid := Strip(email) == [], !IsValidEmail(email);
    ValidEmailNotBlank(email);
    [ Check(Strip(name) == [], NameRequired),
      Check(blank, EmailRequired),
      Check(invalid, InvalidEmailFormat),
      Check(gender == "Select", GenderRequired),
      Check(Strip(phone) == [], MobileRequired),
      Check(password == [], PasswordRequired) ]
  }

  /** The form reaches `add_patient` exactly when the name and phone are not
      blank, the email matches the pattern, a gender is chosen and a password
      is given. */
  lemma AddPatientFormAccepts(name: string, email: string, gender: string, phone: string,
                              password: string)
    ensures FirstFailure(AddPatientChecks(name, email, gender, phone, password)).None?
      <==> Strip(name) != [] && RegexAccepts(email) && gender != "Select"
           && Strip(phone) != [] && password != []
  {
    var checks := AddPatientChecks(name, email, gender, phone, password);
    ValidEmailNotBlank(email);
    AllPassSix(checks);
  }

  lemma AllPassSix(checks: seq<Check>)
    requires |checks| == 6
    ensures FirstFailure(checks).None? <==>
      && !checks[0].failed && !checks[1].failed && !checks[2].failed
      && !checks[3].failed && !checks[4].failed && !checks[5].failed
  {
  }

  /** The message the Add Patient button shows, branch by branch. */
  lemma AddPatientMessages(name: string, email: string, gender: string, phone: string,
                           password: string)
    ensures Strip(name) == [] ==>
      FirstFailure(AddPatientChecks(name, email, gender, phone, password)) == Some(NameRequired)
    ensures Strip(name) != [] && Strip(email) == [] ==>
      FirstFailure(AddPatientChecks(name, email, gender, phone, password)) == Some(EmailRequired)
    ensures Strip(name) != [] && Strip(email) != [] && !RegexAccepts(email) ==>
      FirstFailure(AddPatientChecks(name, email, gender, phone, password)) == Some(InvalidEmailFormat)
    ensures Strip(name) != [] && RegexAccepts(email) && gender == "Select" ==>
      FirstFailure(AddPatientChecks(name, email, gender, phone, password)) == Some(GenderRequired)
    ensures Strip(name) != [] && RegexAccepts(email) && gender != "Select" && Strip(phone) == [] ==>
      FirstFailure(AddPatientChecks(name, email, gender, phone, password)) == Some(MobileRequired)
    ensures (&& Strip(name) != [] && RegexAccepts(email) && gender != "Select"
             && Strip(phone) != [] && password == []) ==>
      FirstFailure(AddPatientChecks(name, email, gender, phone, password)) == Some(PasswordRequired)
  {
    var checks := AddPatientChecks(name, email, gender, phone, password);
    ValidEmailNotBlank(email);
    FirstOfSix(checks);
  }

  /** The first failure of a six-branch chain, branch by branch. */
  lemma FirstOfSix(checks: seq<Check>)
    requires |checks| == 6
    ensures FirstFailure(checks) ==
      if checks[0].failed then Some(checks[0].message)
      else if checks[1].failed then Some(checks[1].message)
      else if checks[2].failed then Some(checks[2].message)
      else if checks[3].failed then Some(checks[3].message)
      else if checks[4].failed then Some(checks[4].message)
      else if checks[5].failed then Some(checks[5].message)
      else None
  {
  }

  /** A blank name is reported before anything else is looked at. */
  lemma BlankNameReportedFirst(name: string, email: string, gender: string, phone: string,
                               password: string)
    requires Strip(name) == []
    ensures FirstFailure(AddPatientChecks(name, email, gender, phone, password)) == Some(NameRequired)
  {
  }

  /** `add_patient_ui` after the Add Patient button: the first failing check's
      message and no change, or the outcome of `add_patient`. */
  method SubmitAddPatient(store: PatientStore, name: string, email: string, gender: string,
                          phone: string, password: string) returns (message: string)
    requires store.Valid()
    modifies store
    ensures store.Valid()
    ensures store.predictions == old(store.predictions)
    ensures match FirstFailure(AddPatientChecks(name, email, gender, phone, password))
      case Some(error) => message == error && store.patients == old(store.patients)
      case None =>
        if EmailTaken(old(store.patients), email) then
          message == EmailExists && store.patients == old(store.patients)
        else
          && message == PatientAdded
          && store.patients == old(store.patients) + [Patient(NextPatientId(old(store.patients)),
               name, email, gender, phone, store.hash(password))]
  {
    var error := FirstFailure(AddPatientChecks(name, email, gender, phone, password));
    if error.Some? {
      message := error.value;
    } else {
      var ok := store.AddPatient(name, email, gender, phone, password);
      message := if ok then PatientAdded else EmailExists;
    }
  }

  // ------------------------------------------------------------------ login

  const InvalidEmailAddress: string := "Please enter a valid email address."
  const InvalidCredentials: string := "Invalid email or password."

  /** What the Login button leads to: an error message, or a role stored in
      the session together with, for a patient, the email. */
  datatype LoginOutcome = Refused(message: string) | LoggedIn(role: Role, sessionEmail: Option<string>)

  /** The checks of the Login button, in order. A blank email also fails
      the format check, so the first check only decides which message shows. */
  function LoginChecks(email: string, password: string): (checks: seq<Check>)
    ensures |checks| == 3
    ensures checks[1].failed <==> !RegexAccepts(email)
    ensures checks[0].failed ==> checks[1].failed
  {
    ValidEmailNotBlank(email);
    [ Check(Strip(email) == [], EmailRequired),
      Check(!IsValidEmail(email), InvalidEmailAddress),
      Check(password == [], PasswordRequired) ]
  }

  /** The login form after the Login button. */
  function Login(store: PatientStore, email: string, password: string): (outcome: LoginOutcome)
    reads store
    ensures outcome.LoggedIn? <==>
      RegexAccepts(email) && password != [] && store.VerifyUser(email, password).Some?
    ensures outcome.LoggedIn? ==> outcome.role == store.VerifyUser(email, password).value
    ensures outcome.LoggedIn? ==>
      (outcome.sessionEmail == if outcome.role == User then Some(email) else None)
    ensures Strip(email) == [] ==> outcome == Refused(EmailRequired)
    ensures Strip(email) != [] && !RegexAccepts(email) ==> outcome == Refused(InvalidEmailAddress)
    ensures RegexAccepts(email) && password == [] ==> outcome == Refused(PasswordRequired)
    ensures RegexAccepts(email) && password != [] && store.VerifyUser(email, password).None?
      ==> outcome == Refused(InvalidCredentials)
  {
    ValidEmailNotBlank(email);
    AllPassThree(LoginChecks(email, password));
    match FirstFailure(LoginChecks(email, password))
    case Some(error) => Refused(error)
    case None =>
      match store.VerifyUser(email, password)
      case Some(Admin) => LoggedIn(Admin, None)
      case Some(User) => LoggedIn(User, Some(email))
      case None => Refused(InvalidCredentials)
  }

  lemma AllPassThree(checks: seq<Check>)
    requires |checks| == 3
    ensures FirstFailure(checks).None? <==>
      !checks[0].failed && !checks[1].failed && !checks[2].failed
  {
  }

  /** The built-in administrator pair gets in whatever the table holds. */
  lemma AdminLogsIn(store: PatientStore)
    ensures Login(store, AdminEmail, AdminPassword) == LoggedIn(Admin, None)
  {
    AdminEmailValid();
    assert store.VerifyUser(AdminEmail, AdminPassword) == Some(Admin);
  }

  lemma AdminEmailValid()
    ensures RegexAccepts(AdminEmail)
  {
    assert CutsAt(AdminEmail, 5, 11) by {
      assert AdminEmail[..5] == "admin";
      assert AdminEmail[6..11] == "gmail";
      assert AdminEmail[12..] == "com";
    }
  }

  /** A stored patient whose email matches the pattern logs in with the
      password whose hash is stored, unless that is the administrator pair. */
  lemma StoredPatientLogsIn(store: PatientStore, i: nat, password: string)
    requires i < |store.patients|
    requires RegexAccepts(store.patients[i].email)
    requires password != [] && store.patients[i].password == store.hash(password)
    requires !(store.patients[i].email == AdminEmail && password == AdminPassword)
    ensures Login(store, store.patients[i].email, password)
         == LoggedIn(User, Some(store.patients[i].email))
  {
  }
}
