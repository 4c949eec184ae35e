/**
  The registration and login screens: the ordered validation of their forms, what each
  screen sends to the authentication service once validation passes, the initial profile
  row registration creates, and how each screen reacts to the service's reply. The service
  itself is outside the model; its replies are parameters.
 */
module AuthForms {
  import opened Wrappers
  import opened Text
  import opened Email

  /** The verdict of form validation: `Ok`, or the first check that failed. */
  datatype Outcome = Ok | EmptyFields | BadEmail | ShortUsername | ShortPassword | Mismatch

  /** The fewest UTF-16 code units a trimmed username may have. */
  const MinUsernameLength := 3
  /** The fewest UTF-16 code units a password may have (counted untrimmed). */
  const MinPasswordLength := 6
  /** The credit balance every new profile starts with. */
  const InitialCredits := 50

  const FillAllFieldsMessage := "Lütfen tüm alanları doldurunuz"
  const EnterEmailAndPasswordMessage := "Lütfen email ve şifre giriniz"
  const InvalidEmailMessage := "Lütfen geçerli bir email adresi giriniz"
  const ShortUsernameMessage := "Kullanıcı adı en az 3 karakter olmalıdır"
  const ShortPasswordMessage := "Şifre en az 6 karakter olmalıdır"
  const MismatchMessage := "Şifreler eşleşmiyor"
  const UserNotCreatedMessage := "Kullanıcı oluşturulamadı"
  const GenericErrorMessage := "Bir hata oluştu. Lütfen tekrar deneyin."
  const ProfileIncompleteMessage :=
    "Hesap oluşturuldu ancak profil kaydı tamamlanamadı. Lütfen giriş yapıp tekrar deneyin."

  /** The four fields of the registration screen. */
  datatype RegisterForm = RegisterForm(email: string, password: string, confirmPassword: string, username: string)

  /** No field of the form is the empty string (JavaScript's `!field` is false for each). */
  predicate FilledIn(f: RegisterForm) {
    f.email != [] && f.password != [] && f.confirmPassword != [] && f.username != []
  }

  /** The registration checks in the screen's order: empty fields, the email pattern, the
      trimmed username length, the password length, the confirmation. Lengths are JavaScript's,
      in UTF-16 code units. The contract pins each verdict to the regular expression's own
      language and to the checks before it. */
  function ValidateRegistration(f: RegisterForm): (r: Outcome)
    ensures r == EmptyFields <==> !FilledIn(f)
    ensures r == BadEmail <==> FilledIn(f) && !MatchesEmailRegex(f.email)
    ensures r == ShortUsername <==>
      FilledIn(f) && MatchesEmailRegex(f.email) && Utf16Length(Trim(f.username)) < MinUsernameLength
    ensures r == ShortPassword <==>
      FilledIn(f) && MatchesEmailRegex(f.email) && Utf16Length(Trim(f.username)) >= MinUsernameLength
      && Utf16Length(f.password) < MinPasswordLength
    ensures r == Mismatch <==>
      FilledIn(f) && MatchesEmailRegex(f.email) && Utf16Length(Trim(f.username)) >= MinUsernameLength
      && Utf16Length(f.password) >= MinPasswordLength && f.password != f.confirmPassword
    ensures r == Ok <==>
      FilledIn(f) && MatchesEmailRegex(f.email) && Utf16Length(Trim(f.username)) >= MinUsernameLength
      && Utf16Length(f.password) >= MinPasswordLength && f.password == f.confirmPassword
  {
    IsEmailMatchesRegex(f.email);
    if !FilledIn(f) then EmptyFields
    else if !IsEmail(f.email) then BadEmail
    else if Utf16Length(Trim(f.username)) < MinUsernameLength then ShortUsername
    else if Utf16Length(f.password) < MinPasswordLength then ShortPassword
    else if f.password != f.confirmPassword then Mismatch
    else Ok
  }

  /** The alert text the registration screen shows for a failed check. */
  function RegisterMessage(o: Outcome): (m: string)
    requires o != Ok
    ensures m != []
  {
    match o
    case EmptyFields => FillAllFieldsMessage
    case BadEmail => InvalidEmailMessage
    case ShortUsername => ShortUsernameMessage
    case ShortPassword => ShortPasswordMessage
    case Mismatch => MismatchMessage
  }

  /** No two failed checks share an alert text, so the alert tells the user which check
      failed. */
  lemma RegisterMessageNamesReason(o: Outcome, o': Outcome)
    requires o != Ok && o' != Ok
    ensures RegisterMessage(o) == RegisterMessage(o') <==> o == o'
  {
  }

  /** Whitespace around a non-empty username never decides the verdict: only the trimmed
      name is measured, and the untrimmed one only has to be non-empty. */
  lemma UsernamePaddingIgnored(f: RegisterForm, a: string, u: string, b: string)
    requires AllSpace(a) && AllSpace(b) && u != []
    ensures ValidateRegistration(f.(username := a + u + b)) == ValidateRegistration(f.(username := u))
  {
    TrimIgnoresPadding(a, u, b);
  }

  /** A username of whitespace only passes the empty-field check but never the length check. */
  lemma BlankUsernameIsShort(f: RegisterForm)
    requires FilledIn(f) && MatchesEmailRegex(f.email) && AllSpace(f.username)
    ensures ValidateRegistration(f) == ShortUsername
  {
    TrimEmptyIffAllSpace(f.username);
  }

  /** An accepted form's email has no surrounding whitespace, so trimming it before sign-up
      sends exactly the validated address. */
  lemma AcceptedEmailIsTrimmed(f: RegisterForm)
    requires ValidateRegistration(f) == Ok
    ensures Trim(f.email) == f.email
  {
    IsEmailMatchesRegex(f.email);
    EmailTrimIsIdentity(f.email);
  }

  /** The email and password handed to the authentication service. */
  datatype Credentials = Credentials(email: string, password: string)

  /** A row of the profiles table. */
  datatype Profile = Profile(id: string, username: string, credits: int, promptsSharedCount: int, isPremium: bool)

  /** What the sign-up call returns: an error, a reply without a user, a new user (with or
      without a session, depending on whether email confirmation is pending), or a throw. */
  datatype SignUpReply =
    | SignUpError(message: string)
    | NoUser
    | SignedUp(userId: string, hasSession: bool)
    | SignUpThrew(thrown: Option<string>)

  /** What inserting the profile row returns: success, an error value, or a throw. */
  datatype InsertReply = Inserted | InsertError | InsertThrew(thrown: Option<string>)

  /** The two screens the app navigates to after authentication. */
  datatype Route = LoginRoute | GalleryRoute

  /** How a registration attempt ends: a failed check, an error alert, an account whose
      profile row could not be written (a warning, then the login screen), or success followed
      by the gallery when a session exists and by login when email confirmation is pending. */
  datatype RegisterEnd =
    | Rejected(reason: Outcome, message: string)
    | Alerted(message: string)
    | ProfileIncomplete(message: string, next: Route)
    | Registered(next: Route)

  /** One registration attempt: the credentials sent to sign-up, the profile row handed to the
      insert, and how the attempt ended. */
  datatype Registration = Registration(signUp: Option<Credentials>, profile: Option<Profile>, end: RegisterEnd)

  /** The text of a caught error: its message, or a generic one when it has none. */
  function ThrownMessage(thrown: Option<string>): (m: string)
    ensures m != []
    ensures thrown.Some? && thrown.value != [] ==> m == thrown.value
    ensures thrown.None? || thrown.value == [] ==> m == GenericErrorMessage
  {
    if thrown.Some? && thrown.value != [] then thrown.value else GenericErrorMessage
  }

  /** The profile row a new account starts with: the account's id, the trimmed username, the
      starting credits, no shared prompts and no premium. */
  function NewProfile(userId: string, username: string): (p: Profile)
    ensures p.id == userId && p.username == Trim(username)
    ensures Trimmed(p.username) && |p.username| <= |username|
    ensures p.credits == InitialCredits && p.promptsSharedCount == 0 && !p.isPremium
  {
    Profile(userId, Trim(username), InitialCredits, 0, false)
  }

  /** Whitespace typed around the username never reaches the stored row. */
  lemma NewProfileIgnoresPadding(userId: string, a: string, u: string, b: string)
    requires AllSpace(a) && AllSpace(b)
    ensures NewProfile(userId, a + u + b) == NewProfile(userId, u)
  {
    TrimIgnoresPadding(a, u, b);
  }

  /** The registration handler, with the authentication service's and the database's replies
      as parameters. */
  function Register(f: RegisterForm, signUp: SignUpReply, insert: InsertReply): (r: Registration)
    ensures r.signUp.Some? <==> ValidateRegistration(f) == Ok
    ensures r.end.Rejected? <==> ValidateRegistration(f) != Ok
    ensures r.end.Rejected? ==>
      r.end.reason == ValidateRegistration(f) && r.end.message == RegisterMessage(r.end.reason)
    // the trimmed email sent to sign-up is exactly the validated one
    ensures r.signUp.Some? ==> r.signUp.value == Credentials(f.email, f.password)
    ensures r.profile.Some? <==> ValidateRegistration(f) == Ok && signUp.SignedUp?
    ensures r.profile.Some? ==>
      && r.profile.value.id == signUp.userId
      && r.profile.value.username == Trim(f.username)
      && Utf16Length(r.profile.value.username) >= MinUsernameLength
      && Trimmed(r.profile.value.username)
      && r.profile.value.credits == 50
      && r.profile.value.promptsSharedCount == 0
      && !r.profile.value.isPremium
    ensures r.end.ProfileIncomplete? <==>
      ValidateRegistration(f) == Ok && signUp.SignedUp? && insert == InsertError
    ensures r.end.Registered? <==> ValidateRegistration(f) == Ok && signUp.SignedUp? && insert == Inserted
    ensures r.end.Registered? ==> (r.end.next == GalleryRoute <==> signUp.hasSession)
  {
    var outcome := ValidateRegistration(f);
    if outcome != Ok then Registration(None, None, Rejected(outcome, RegisterMessage(outcome)))
    else
      AcceptedEmailIsTrimmed(f);
      var credentials := Credentials(Trim(f.email), f.password);
      match signUp
      case SignUpError(m) => Registration(Some(credentials), None, Alerted(m))
      case NoUser => Registration(Some(credentials), None, Alerted(UserNotCreatedMessage))
      case SignUpThrew(t) => Registration(Some(credentials), None, Alerted(ThrownMessage(t)))
      case SignedUp(id, hasSession) =>
        var end :=
          match insert
          case Inserted => Registered(if hasSession then GalleryRoute else LoginRoute)
          case InsertError => ProfileIncomplete(ProfileIncompleteMessage, LoginRoute)
          case InsertThrew(t) => Alerted(ThrownMessage(t));
        Registration(Some(credentials), Some(NewProfile(id, f.username)), end)
  }

  /** Once the form is accepted, the alert the screen shows when the service refuses or a
      call throws: the service's own message on a sign-up error, a fixed text when no user
      comes back, and the thrown message (or the generic text) when either call throws. When
      the account exists but its profile row was refused, the screen warns and goes to
      login. */
  lemma RegisterAlerts(f: RegisterForm, signUp: SignUpReply, insert: InsertReply)
    requires ValidateRegistration(f) == Ok
    ensures var end := Register(f, signUp, insert).end;
      && (signUp.SignUpError? ==> end == Alerted(signUp.message))
      && (signUp.NoUser? ==> end == Alerted(UserNotCreatedMessage))
      && (signUp.SignUpThrew? ==> end == Alerted(ThrownMessage(signUp.thrown)))
      && (signUp.SignedUp? && insert.InsertThrew? ==> end == Alerted(ThrownMessage(insert.thrown)))
      && (signUp.SignedUp? && insert.InsertError? ==> end == ProfileIncomplete(ProfileIncompleteMessage, LoginRoute))
  {
  }

  /** The login checks: both fields present, then the same email pattern as registration.
      There is no rule on the password beyond being non-empty. */
  function ValidateLogin(email: string, password: string): (r: Outcome)
    ensures r == Ok || r == EmptyFields || r == BadEmail
    ensures r == EmptyFields <==> email == [] || password == []
    ensures r == BadEmail <==> email != [] && password != [] && !MatchesEmailRegex(email)
    ensures r == Ok <==> password != [] && MatchesEmailRegex(email)
  {
    IsEmailMatchesRegex(email);
    assert MatchesEmailRegex(email) ==> email != [];
    if email == [] || password == [] then EmptyFields
    else if !IsEmail(email) then BadEmail
    else Ok
  }

  /** The alert text the login screen shows for a failed check. */
  function LoginMessage(o: Outcome): (m: string)
    requires o == EmptyFields || o == BadEmail
    ensures m != []
    ensures m == RegisterMessage(BadEmail) <==> o == BadEmail
  {
    if o == EmptyFields then EnterEmailAndPasswordMessage else InvalidEmailMessage
  }

  /** Both screens judge an email the same way: with every other field filled in, login
      rejects the address exactly when registration does. */
  lemma SameEmailRule(f: RegisterForm, password: string)
    requires FilledIn(f) && password != []
    ensures ValidateLogin(f.email, password) == BadEmail <==> ValidateRegistration(f) == BadEmail
  {
  }

  /** What the password sign-in call returns. */
  datatype SignInReply = SignInError(message: string) | SignedIn(hasSession: bool)

  /** One login attempt: the credentials sent, the loading flag afterwards, the alert shown
      and the redirect made. */
  datatype LoginAttempt = LoginAttempt(signIn: Option<Credentials>, loading: bool, alert: Option<string>, redirect: Option<Route>)

  /** The login handler, with the sign-in reply as a parameter. */
  function Login(email: string, password: string, reply: SignInReply): (r: LoginAttempt)
    ensures !r.loading
    ensures r.signIn.Some? <==> ValidateLogin(email, password) == Ok
    ensures r.signIn.Some? ==> r.signIn.value == Credentials(email, password)
    ensures r.signIn.None? ==>
      r.alert == Some(LoginMessage(ValidateLogin(email, password))) && r.redirect.None?
    ensures r.signIn.Some? && reply.SignInError? ==> r.alert == Some(reply.message) && r.redirect.None?
    ensures r.redirect.Some? <==> r.signIn.Some? && reply.SignedIn? && reply.hasSession
    ensures r.signIn.Some? && reply.SignedIn? ==> r.alert.None?
    ensures r.redirect.Some? ==> r.redirect.value == GalleryRoute
  {
    if email == [] || password == [] then
      LoginAttempt(None, false, Some(LoginMessage(EmptyFields)), None)
    else if !IsEmail(email) then
      LoginAttempt(None, false, Some(LoginMessage(BadEmail)), None)
    else
      EmailTrimIsIdentity(email);
      var credentials := Credentials(Trim(email), password);
      match reply
      case SignInError(m) => LoginAttempt(Some(credentials), false, Some(m), None)
      case SignedIn(hasSession) =>
        LoginAttempt(Some(credentials), false, None, if hasSession then Some(GalleryRoute) else None)
  }
}
