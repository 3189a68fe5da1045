/** controllers/authController.js: registration, sign-in, the profile,
    the password, the terms acceptance and the password-reset token. */
module AuthController {
  import opened Records
  import opened Helpers
  import opened Store
  import TermsMiddleware

  // ------------------------------------------------------ table queries

  /** `SELECT id FROM users WHERE cpf = ? OR email = ?` finds a row. */
  predicate Taken(users: map<int, User>, cpf: string, email: string)
  {
    exists id :: id in users && (users[id].cpf == cpf || users[id].email == email)
  }

  /** `SELECT ... FROM users WHERE cpf = ?` finds a row. */
  predicate CpfRegistered(users: map<int, User>, cpf: string)
  {
    exists id :: id in users && users[id].cpf == cpf
  }

  /** `SELECT ... FROM users WHERE email = ?` finds a row. */
  predicate EmailRegistered(users: map<int, User>, email: string)
  {
    exists id :: id in users && users[id].email == email
  }

  /** `SELECT id FROM users WHERE email = ? AND id != ?` finds a row. */
  predicate EmailOwnedByOther(users: map<int, User>, email: string, self: int)
  {
    exists id :: id in users && id != self && users[id].email == email
  }

  /** The user holds `token` and it expires after `now`. */
  predicate HoldsLiveToken(u: User, token: string, now: int)
  {
    u.resetToken == Some(token) && u.resetExpires.Some? && u.resetExpires.value > now
  }

  /** `SELECT id FROM users WHERE reset_password_token = ? AND
      reset_password_expires > NOW()` finds a row. */
  predicate TokenValid(users: map<int, User>, token: string, now: int)
  {
    exists id :: id in users && HoldsLiveToken(users[id], token, now)
  }

  /** The session `login` writes for a user. */
  function SessionFor(id: nat, u: User): Session
  {
    Session(id, u.nomeCompleto, u.email, Number(u.isAdmin))
  }

  // ---------------------------------------------------------- register

  datatype RegisterOutcome = InvalidCpf | AlreadyRegistered | Registered(id: int)

  function RegisterCode(o: RegisterOutcome): int
  {
    match o
    case InvalidCpf => 400
    case AlreadyRegistered => 409
    case Registered(_) => 200
  }

  /** `register`: the CPF is cleaned and must have 11 digits; a CPF or an
      e-mail already on file is a conflict; the new user is not an admin
      and has accepted the terms at `now`. */
  method Register(db: Database, h: Hasher, nomeCompleto: string, cpf: Option<string>,
                  dataNascimento: Date, email: string, password: string, now: int)
    returns (outcome: RegisterOutcome)
    requires db.Valid()
    modifies db`users, db`nextUserId
    ensures db.Valid()
    ensures outcome == InvalidCpf <==> ValidateCpfLength(cpf).None?
    ensures RegisterCode(outcome) ==
      if ValidateCpfLength(cpf).None? then 400
      else if Taken(old(db.users), CleanCpf(cpf), email) then 409
      else 200
    ensures outcome == AlreadyRegistered <==>
      ValidateCpfLength(cpf).Some? && Taken(old(db.users), CleanCpf(cpf), email)
    ensures !outcome.Registered? ==> db.users == old(db.users) && db.nextUserId == old(db.nextUserId)
    ensures outcome.Registered? ==>
      && outcome.id == old(db.nextUserId) && outcome.id !in old(db.users)
      && db.nextUserId == old(db.nextUserId) + 1
      && db.users == old(db.users)[outcome.id :=
           User(nomeCompleto, CleanCpf(cpf), dataNascimento, email, h.hash(password), 0, Some(now), None, None)]
    ensures outcome.Registered? ==> forall url ::
      TermsMiddleware.CheckTermsAcceptance(outcome.id, TermsMiddleware.LookupTerms(db.users, outcome.id), url)
        == TermsMiddleware.Proceed
  {
    var cleanedCpf := CleanCpf(cpf);
    var validatedCpf := ValidateCpfLength(Some(cleanedCpf));
    ValidateCleaned(cpf);
    if validatedCpf.None? {
      return InvalidCpf;
    }
    var passwordHash := h.hash(password);
    if Taken(db.users, validatedCpf.value, email) {
      return AlreadyRegistered;
    }
    var id := db.nextUserId;
    db.users := db.users[id := User(nomeCompleto, validatedCpf.value, dataNascimento, email,
                                    passwordHash, 0, Some(now), None, None)];
    db.nextUserId := id + 1;
    outcome := Registered(id);
  }

  // ------------------------------------------------------------- login

  datatype LoginOutcome = MalformedCpf | CpfNotFound | WrongPassword | LoggedIn

  function LoginCode(o: LoginOutcome): int
  {
    match o
    case MalformedCpf => 400
    case CpfNotFound => 401
    case WrongPassword => 401
    case LoggedIn => 200
  }

  /** The `campo` of the JSON answer: which form field to mark. */
  function LoginField(o: LoginOutcome): string
  {
    match o
    case MalformedCpf => "cpf"
    case CpfNotFound => "cpf"
    case WrongPassword => "password"
    case LoggedIn => ""
  }

  /** `login`: look the CPF up, check the password against the stored
      hash, then fill the session from the user's row. A failed login
      leaves the session as it was. */
  method Login(db: Database, h: Hasher, session: Session, cpf: Option<string>, password: string)
    returns (outcome: LoginOutcome, s: Session)
    requires db.Valid()
    ensures outcome == MalformedCpf <==> ValidateCpfLength(cpf).None?
    ensures LoginCode(outcome) == 400 <==> ValidateCpfLength(cpf).None?
    ensures LoginCode(outcome) == 401 ==>
      (LoginField(outcome) == "password" <==> CpfRegistered(db.users, CleanCpf(cpf)))
    ensures LoginCode(outcome) == 401 ==>
      (LoginField(outcome) == "cpf" <==> !CpfRegistered(db.users, CleanCpf(cpf)))
    ensures outcome == CpfNotFound <==>
      ValidateCpfLength(cpf).Some? && !CpfRegistered(db.users, CleanCpf(cpf))
    ensures outcome == WrongPassword <==>
      ValidateCpfLength(cpf).Some?
      && exists id :: id in db.users && db.users[id].cpf == CleanCpf(cpf)
                      && !h.verify(password, db.users[id].passwordHash)
    ensures outcome == LoggedIn ==>
      && s.userId in db.users && db.users[s.userId].cpf == CleanCpf(cpf)
      && h.verify(password, db.users[s.userId].passwordHash)
      && s == SessionFor(s.userId, db.users[s.userId])
    ensures outcome != LoggedIn ==> s == session
  {
    var cleanedCpf := CleanCpf(cpf);
    var validatedCpf := ValidateCpfLength(Some(cleanedCpf));
    ValidateCleaned(cpf);
    if validatedCpf.None? {
      return MalformedCpf, session;
    }
    if !CpfRegistered(db.users, validatedCpf.value) {
      return CpfNotFound, session;
    }
    var id :| id in db.users && db.users[id].cpf == validatedCpf.value;
    var user := db.users[id];
    if h.verify(password, user.passwordHash) {
      outcome, s := LoggedIn, SessionFor(id, user);
    } else {
      outcome, s := WrongPassword, session;
    }
  }

  /** Registering and then signing in with the same CPF and password
      succeeds and gives a session that is not an admin's. */
  method RegisterThenLogin(db: Database, h: Hasher, nomeCompleto: string, cpf: Option<string>,
                           dataNascimento: Date, email: string, password: string, now: int,
                           session: Session)
    returns (registered: RegisterOutcome, login: LoginOutcome, s: Session)
    requires db.Valid() && Sound(h)
    modifies db`users, db`nextUserId
    ensures db.Valid()
    ensures registered.Registered? ==>
      login == LoggedIn && s.userId == registered.id && s.isAdmin == Number(0)
  {
    registered := Register(db, h, nomeCompleto, cpf, dataNascimento, email, password, now);
    login, s := Login(db, h, session, cpf, password);
    if registered.Registered? {
      assert db.users[registered.id].cpf == CleanCpf(cpf);
      assert h.verify(password, h.hash(password));
    }
  }

  /** Two spellings of one CPF are the same CPF: the second registration
      is a conflict. */
  method RegisterTwice(db: Database, h: Hasher, cpf1: Option<string>, cpf2: Option<string>,
                       nome: string, dataNascimento: Date, email1: string, email2: string,
                       password: string, now: int)
    returns (first: RegisterOutcome, second: RegisterOutcome)
    requires db.Valid()
    requires CleanCpf(cpf1) == CleanCpf(cpf2)
    modifies db`users, db`nextUserId
    ensures db.Valid()
    ensures first.Registered? ==> second == AlreadyRegistered
  {
    first := Register(db, h, nome, cpf1, dataNascimento, email1, password, now);
    ghost var id := if first.Registered? then first.id else 0;
    second := Register(db, h, nome, cpf2, dataNascimento, email2, password, now);
    if first.Registered? {
      assert ValidateCpfLength(cpf1) == ValidateCpfLength(cpf2);
      assert old(db.users) != db.users ==> id in db.users;
    }
  }

  // ----------------------------------------------------------- profile

  datatype ProfileOutcome = NameTooLong | EmailTooLong | Underage | EmailInUse | NoChanges | ProfileUpdated

  function ProfileCode(o: ProfileOutcome): int
  {
    match o
    case NameTooLong => 400
    case EmailTooLong => 400
    case Underage => 400
    case EmailInUse => 400
    case NoChanges => 200
    case ProfileUpdated => 200
  }

  /** One entry of `updateFields`/`updateValues`. */
  datatype ProfileField = SetBirthDate(date: Date) | SetEmail(email: string) | SetName(name: string)

  function ApplyField(u: User, f: ProfileField): User
  {
    match f
    case SetBirthDate(d) => u.(dataNascimento := d)
    case SetEmail(e) => u.(email := e)
    case SetName(n) => u.(nomeCompleto := n)
  }

  /** `UPDATE users SET <fields> WHERE id = ?`. */
  function ApplyFields(u: User, fields: seq<ProfileField>): (r: User)
    ensures && r.cpf == u.cpf && r.passwordHash == u.passwordHash && r.isAdmin == u.isAdmin
            && r.termsAcceptedAt == u.termsAcceptedAt
            && r.resetToken == u.resetToken && r.resetExpires == u.resetExpires
    ensures (forall f :: f in fields ==> !f.SetBirthDate?) ==> r.dataNascimento == u.dataNascimento
    ensures (forall f :: f in fields ==> !f.SetEmail?) ==> r.email == u.email
    ensures (forall f :: f in fields ==> !f.SetName?) ==> r.nomeCompleto == u.nomeCompleto
    decreases fields
  {
    if fields == [] then u else ApplyFields(ApplyField(u, fields[0]), fields[1..])
  }

  /** The user row after a profile update: each field given replaces the
      stored one. */
  function EditedUser(u: User, nomeCompleto: string, dataNascimento: Option<Date>, email: string): User
  {
    u.(nomeCompleto := if nomeCompleto != [] then nomeCompleto else u.nomeCompleto,
       email := if email != [] then email else u.email,
       dataNascimento := if dataNascimento.Some? then dataNascimento.value else u.dataNascimento)
  }

  /** A report of `userId` after a name change: the display name follows
      the new name unless the report is anonymous. */
  function Renamed(r: Report, userId: int, nomeCompleto: string): Report
  {
    if r.idUsuario == userId && !r.anonimo then r.(nomeExibicao := nomeCompleto) else r
  }

  /** The user's reports after a name change. */
  function RenameReports(reports: map<int, Report>, userId: int, nomeCompleto: string): (renamed: map<int, Report>)
    ensures renamed.Keys == reports.Keys
    ensures forall k :: k in renamed ==>
      && renamed[k].idUsuario == reports[k].idUsuario
      && (reports[k].idUsuario == userId && !reports[k].anonimo ==> renamed[k].nomeExibicao == nomeCompleto)
      && (reports[k].idUsuario != userId || reports[k].anonimo ==> renamed[k] == reports[k])
  {
    map k | k in reports :: Renamed(reports[k], userId, nomeCompleto)
  }

  /** The validation of `updateProfile`, in the source's order: the first
      check that fails decides the answer; `ProfileUpdated` when none does
      and at least one field was given. */
  function ProfileCheck(users: map<int, User>, userId: int, nomeCompleto: string,
                        dataNascimento: Option<Date>, email: string, today: Date): (o: ProfileOutcome)
    ensures o == NameTooLong <==> nomeCompleto != [] && JsLength(nomeCompleto) > 100
    ensures o == EmailTooLong <==>
      !(nomeCompleto != [] && JsLength(nomeCompleto) > 100) && email != [] && JsLength(email) > 100
    ensures o == Underage <==>
      && !(nomeCompleto != [] && JsLength(nomeCompleto) > 100) && !(email != [] && JsLength(email) > 100)
      && dataNascimento.Some? && !IsAdult(dataNascimento.value, today)
    ensures o == EmailInUse <==>
      && !(nomeCompleto != [] && JsLength(nomeCompleto) > 100) && !(email != [] && JsLength(email) > 100)
      && (dataNascimento.Some? ==> IsAdult(dataNascimento.value, today))
      && email != [] && EmailOwnedByOther(users, email, userId)
    ensures o == NoChanges <==>
      !(nomeCompleto != [] && JsLength(nomeCompleto) > 100) && nomeCompleto == [] && dataNascimento.None? && email == []
    ensures ProfileCode(o) == 400 <==>
      || (nomeCompleto != [] && JsLength(nomeCompleto) > 100)
      || (email != [] && JsLength(email) > 100)
      || (dataNascimento.Some? && !IsAdult(dataNascimento.value, today))
      || (email != [] && EmailOwnedByOther(users, email, userId))
    ensures o == ProfileUpdated ==>
      && (dataNascimento.Some? ==> IsAdult(dataNascimento.value, today))
      && (email != [] ==> JsLength(email) <= 100 && !EmailOwnedByOther(users, email, userId))
      && JsLength(nomeCompleto) <= 100
  {
    if nomeCompleto != [] && JsLength(nomeCompleto) > 100 then NameTooLong
    else if email != [] && JsLength(email) > 100 then EmailTooLong
    else if dataNascimento.Some? && !IsAdult(dataNascimento.value, today) then Underage
    else if email != [] && EmailOwnedByOther(users, email, userId) then EmailInUse
    else if nomeCompleto == [] && dataNascimento.None? && email == [] then NoChanges
    else ProfileUpdated
  }

  /** `updateProfile`: any failed check changes nothing; otherwise the
      given fields replace the stored ones, and a new name is copied to the
      session and to the display name of the user's non-anonymous reports. */
  method UpdateProfile(db: Database, session: Session, nomeCompleto: string,
                       dataNascimento: Option<Date>, email: string, today: Date)
    returns (outcome: ProfileOutcome, s: Session)
    requires db.Valid()
    requires session.userId != 0   // the route is behind isAuthenticated
    modifies db`users, db`reports
    ensures db.Valid()
    ensures outcome == ProfileCheck(old(db.users), session.userId, nomeCompleto, dataNascimento, email, today)
    ensures outcome != ProfileUpdated ==>
      db.users == old(db.users) && db.reports == old(db.reports) && s == session
    ensures outcome == ProfileUpdated ==>
      db.users == if session.userId in old(db.users)
                  then old(db.users)[session.userId :=
                         EditedUser(old(db.users)[session.userId], nomeCompleto, dataNascimento, email)]
                  else old(db.users)
    ensures outcome == ProfileUpdated ==>
      db.reports == if nomeCompleto != [] then RenameReports(old(db.reports), session.userId, nomeCompleto)
                    else old(db.reports)
    ensures outcome == ProfileUpdated ==>
      && s.userId == session.userId && s.isAdmin == session.isAdmin
      && s.nomeCompleto == (if nomeCompleto != [] then nomeCompleto else session.nomeCompleto)
      && s.email == (if email != [] then email else session.email)
  {
    s := session;
    var userId := session.userId;
    if nomeCompleto != [] && JsLength(nomeCompleto) > 100 {
      return NameTooLong, s;
    }
    if email != [] && JsLength(email) > 100 {
      return EmailTooLong, s;
    }
    var updateFields: seq<ProfileField> := [];
    if dataNascimento.Some? {
      if !IsAdult(dataNascimento.value, today) {
        return Underage, s;
      }
      updateFields := updateFields + [SetBirthDate(dataNascimento.value)];
    }
    if email != [] {
      if EmailOwnedByOther(db.users, email, userId) {
        return EmailInUse, s;
      }
      updateFields := updateFields + [SetEmail(email)];
    }
    if nomeCompleto != [] {
      updateFields := updateFields + [SetName(nomeCompleto)];
    }
    if updateFields == [] {
      return NoChanges, s;
    }
    if userId in db.users {
      var u := db.users[userId];
      FieldsEdit(u, nomeCompleto, dataNascimento, email, updateFields);
      EditKeepsTables(db.users, userId, nomeCompleto, dataNascimento, email);
      db.users := db.users[userId := ApplyFields(u, updateFields)];
    }
    if nomeCompleto != [] {
      s := s.(nomeCompleto := nomeCompleto);
      db.reports := RenameReports(db.reports, userId, nomeCompleto);
    }
    if email != [] {
      s := s.(email := email);
    }
    outcome := ProfileUpdated;
  }

  /** An edit whose e-mail no other user owns keeps the users table's
      uniqueness and pairing rules. */
  lemma EditKeepsTables(users: map<int, User>, userId: int, nomeCompleto: string,
                        dataNascimento: Option<Date>, email: string)
    requires userId in users
    requires UniqueCpf(users) && UniqueEmail(users) && ResetPaired(users) && UniqueTokens(users)
    requires email != [] ==> !EmailOwnedByOther(users, email, userId)
    ensures var edited := users[userId := EditedUser(users[userId], nomeCompleto, dataNascimento, email)];
      UniqueCpf(edited) && UniqueEmail(edited) && ResetPaired(edited) && UniqueTokens(edited)
  {
  }

  /** The fields pushed in the source's order apply as the edit of the
      user row. */
  lemma FieldsEdit(u: User, nomeCompleto: string, dataNascimento: Option<Date>, email: string,
                   fields: seq<ProfileField>)
    requires fields ==
      (if dataNascimento.Some? then [SetBirthDate(dataNascimento.value)] else [])
      + (if email != [] then [SetEmail(email)] else [])
      + (if nomeCompleto != [] then [SetName(nomeCompleto)] else [])
    ensures ApplyFields(u, fields) == EditedUser(u, nomeCompleto, dataNascimento, email)
  {
    var b := if dataNascimento.Some? then [SetBirthDate(dataNascimento.value)] else [];
    var e := if email != [] then [SetEmail(email)] else [];
    var n := if nomeCompleto != [] then [SetName(nomeCompleto)] else [];
    ApplyAppend(u, b, e + n);
    assert fields == b + (e + n);
    ApplyAppend(ApplyFields(u, b), e, n);
  }

  lemma {:induction false} ApplyAppend(u: User, a: seq<ProfileField>, b: seq<ProfileField>)
    ensures ApplyFields(u, a + b) == ApplyFields(ApplyFields(u, a), b)
    decreases a
  {
    if a != [] {
      assert (a + b)[0] == a[0] && (a + b)[1..] == a[1..] + b;
      ApplyAppend(ApplyField(u, a[0]), a[1..], b);
    } else {
      assert a + b == b;
    }
  }

  // ---------------------------------------------------------- password

  datatype PasswordOutcome = PasswordTooShort | UserMissing | WrongCurrentPassword | PasswordChanged

  function PasswordCode(o: PasswordOutcome): int
  {
    match o
    case PasswordTooShort => 400
    case UserMissing => 500
    case WrongCurrentPassword => 401
    case PasswordChanged => 200
  }

  /** `changePassword`: both passwords must be given and the new one must
      have at least 6 characters; the current one must match the stored
      hash; then only that user's hash changes. A session whose user row is
      gone makes the handler fail (`userRow[0]` is undefined): 500. */
  method ChangePassword(db: Database, h: Hasher, session: Session, currentPassword: string, newPassword: string)
    returns (outcome: PasswordOutcome)
    requires db.Valid()
    modifies db`users
    ensures db.Valid()
    ensures outcome == PasswordTooShort <==> currentPassword == [] || newPassword == [] || JsLength(newPassword) < 6
    ensures PasswordCode(outcome) ==
      if currentPassword == [] || newPassword == [] || JsLength(newPassword) < 6 then 400
      else if session.userId !in old(db.users) then 500
      else if !h.verify(currentPassword, old(db.users)[session.userId].passwordHash) then 401
      else 200
    ensures outcome == UserMissing <==>
      currentPassword != [] && JsLength(newPassword) >= 6 && session.userId !in old(db.users)
    ensures outcome == WrongCurrentPassword <==>
      && currentPassword != [] && JsLength(newPassword) >= 6 && session.userId in old(db.users)
      && !h.verify(currentPassword, old(db.users)[session.userId].passwordHash)
    ensures outcome != PasswordChanged ==> db.users == old(db.users)
    ensures outcome == PasswordChanged ==>
      db.users == old(db.users)[session.userId :=
        old(db.users)[session.userId].(passwordHash := h.hash(newPassword))]
  {
    if currentPassword == [] || newPassword == [] || JsLength(newPassword) < 6 {
      return PasswordTooShort;
    }
    var userId := session.userId;
    if userId !in db.users {
      return UserMissing;
    }
    var oldHash := db.users[userId].passwordHash;
    if !h.verify(currentPassword, oldHash) {
      return WrongCurrentPassword;
    }
    db.users := db.users[userId := db.users[userId].(passwordHash := h.hash(newPassword))];
    outcome := PasswordChanged;
  }

  // ------------------------------------------------------------- terms

  datatype AcceptOutcome = SignInFirst | TermsAccepted

  /** `acceptTerms`: without a session user, back to the sign-in page;
      otherwise the acceptance time is set, after which the terms gate
      lets that user through on every URL. */
  method AcceptTerms(db: Database, session: Session, now: int) returns (outcome: AcceptOutcome)
    requires db.Valid()
    modifies db`users
    ensures db.Valid()
    ensures outcome == SignInFirst <==> session.userId == 0
    ensures outcome == SignInFirst ==> db.users == old(db.users)
    ensures outcome == TermsAccepted ==>
      db.users == if session.userId in old(db.users)
                  then old(db.users)[session.userId := old(db.users)[session.userId].(termsAcceptedAt := Some(now))]
                  else old(db.users)
    ensures outcome == TermsAccepted && session.userId in db.users ==> forall url ::
      TermsMiddleware.CheckTermsAcceptance(session.userId, TermsMiddleware.LookupTerms(db.users, session.userId), url)
        == TermsMiddleware.Proceed
  {
    var userId := session.userId;
    if userId == 0 {
      return SignInFirst;
    }
    if userId in db.users {
      db.users := db.users[userId := db.users[userId].(termsAcceptedAt := Some(now))];
    }
    outcome := TermsAccepted;
  }

  // ------------------------------------------------------ password reset

  /** `now.setHours(now.getHours() + 1)`, in milliseconds. */
  const OneHour := 3_600_000

  datatype ForgotOutcome = UnknownEmail | LinkSent | MailFailed

  function ForgotCode(o: ForgotOutcome): int
  {
    match o
    case UnknownEmail => 200
    case LinkSent => 200
    case MailFailed => 500
  }

  function ForgotMessage(o: ForgotOutcome): string
  {
    match o
    case UnknownEmail => "Se o e-mail existir, o link foi enviado."
    case LinkSent => "Link enviado."
    case MailFailed => "Erro ao processar."
  }

  function ResetLink(host: string, token: string): string
  {
    "http://" + host + "/reset-password/" + token
  }

  /** The reset e-mail: it carries the link with the token. */
  function ResetMail(to: string, nomeCompleto: string, host: string, token: string): (m: Mail)
    ensures m.to == to
    ensures Contains(m.html, ResetLink(host, token))
  {
    var link := ResetLink(host, token);
    var head := "<p>Olá " + nomeCompleto + ",</p><p>Clique para redefinir sua senha: <a href=\"";
    ContainsInfix(head, link, "\">" + link, "</a></p>");
    Mail(to, "Recuperação de Senha - EcoAlerta", head + link + ("\">" + link) + "</a></p>")
  }

  /** `forgotPassword`: an unknown e-mail changes nothing and gets a 200;
      a known one gets a fresh token that expires an hour from `now`, and
      the link is mailed. `delivered` is the transport's verdict: a failed
      send answers 500 but the token stays written. `token` comes from the
      random generator, modelled as handing out a token no user holds. */
  method ForgotPassword(db: Database, email: string, token: string, now: int, host: string, delivered: bool)
    returns (outcome: ForgotOutcome, mail: Option<Mail>)
    requires db.Valid()
    requires forall id :: id in db.users ==> db.users[id].resetToken != Some(token)
    modifies db`users
    ensures db.Valid()
    ensures outcome == UnknownEmail <==> !EmailRegistered(old(db.users), email)
    ensures outcome == UnknownEmail ==> db.users == old(db.users) && mail == None
    ensures outcome != UnknownEmail ==> outcome == if delivered then LinkSent else MailFailed
    ensures ForgotCode(outcome) == 500 <==> EmailRegistered(old(db.users), email) && !delivered
    ensures ForgotCode(outcome) == 200 ==>
      ForgotMessage(outcome) == if EmailRegistered(old(db.users), email) then "Link enviado."
                                else "Se o e-mail existir, o link foi enviado."
    ensures outcome != UnknownEmail ==>
      exists id :: id in old(db.users) && old(db.users)[id].email == email
        && db.users == old(db.users)[id := old(db.users)[id].(resetToken := Some(token),
                                                              resetExpires := Some(now + OneHour))]
        && mail == Some(ResetMail(email, old(db.users)[id].nomeCompleto, host, token))
  {
    if !EmailRegistered(db.users, email) {
      return UnknownEmail, None;
    }
    var id :| id in db.users && db.users[id].email == email;
    var user := db.users[id];
    db.users := db.users[id := user.(resetToken := Some(token), resetExpires := Some(now + OneHour))];
    mail := Some(ResetMail(email, user.nomeCompleto, host, token));
    outcome := if delivered then LinkSent else MailFailed;
  }

  /** The answers for a known and an unknown e-mail differ in their
      message, although both are 200. */
  lemma ForgotAnswersDiffer()
    ensures ForgotCode(UnknownEmail) == ForgotCode(LinkSent)
    ensures ForgotMessage(UnknownEmail) != ForgotMessage(LinkSent)
  {
    assert ForgotMessage(UnknownEmail)[0] != ForgotMessage(LinkSent)[0];
  }

  /** A token just issued at `issuedAt` is live exactly until an hour has
      passed. */
  lemma {:induction false} IssuedTokenWindow(users: map<int, User>, id: int, token: string, issuedAt: int, now: int)
    requires UniqueTokens(users)
    requires id in users && users[id].resetToken == Some(token)
    requires users[id].resetExpires == Some(issuedAt + OneHour)
    ensures TokenValid(users, token, now) <==> now < issuedAt + OneHour
  {
    if TokenValid(users, token, now) {
      var other :| other in users && HoldsLiveToken(users[other], token, now);
      assert other == id;
    }
  }

  datatype ResetPage = ResetForm | InvalidLink

  /** `renderResetPassword`: the form only for a live token. */
  function RenderResetPassword(users: map<int, User>, token: string, now: int): (page: ResetPage)
    ensures page == ResetForm <==> exists id :: id in users && HoldsLiveToken(users[id], token, now)
  {
    if TokenValid(users, token, now) then ResetForm else InvalidLink
  }

  /** The user row after a reset: the new hash, no token, no expiry. */
  function Redeemed(u: User, newHash: string): (r: User)
    ensures r.resetToken.None? && r.resetExpires.None? && r.passwordHash == newHash
    ensures r.cpf == u.cpf && r.email == u.email
  {
    u.(passwordHash := newHash, resetToken := None, resetExpires := None)
  }

  /** Redeeming clears the token, and no other user holds it, so nobody
      holds it afterwards at any time. */
  lemma RedeemedTokenIsSpent(users: map<int, User>, id: int, token: string, newHash: string,
                             after: map<int, User>)
    requires UniqueTokens(users)
    requires id in users && users[id].resetToken == Some(token)
    requires after == users[id := Redeemed(users[id], newHash)]
    ensures forall t :: !TokenValid(after, token, t)
  {
    forall other | other in after
      ensures after[other].resetToken != Some(token)
    {
      if other != id {
        assert after[other] == users[other];
      }
    }
  }

  /** A token that is not live at `t1` is not live at any later time. */
  lemma ExpiredStaysExpired(users: map<int, User>, token: string, t1: int, t2: int)
    requires t1 <= t2 && !TokenValid(users, token, t1)
    ensures !TokenValid(users, token, t2)
  {
    forall id | id in users
      ensures !HoldsLiveToken(users[id], token, t2)
    {
      assert !HoldsLiveToken(users[id], token, t1);
    }
  }

  datatype ResetOutcome = ResetTooShort | TokenInvalid | PasswordReset

  function ResetCode(o: ResetOutcome): int
  {
    match o
    case ResetTooShort => 200   // an HTML page, sent with the default status
    case TokenInvalid => 400
    case PasswordReset => 200
  }

  /** `resetPassword`: a password of at least 6 characters and a live
      token are needed; the holder's hash is replaced and the token and its
      expiry are cleared, so the same token never works again. */
  method ResetPassword(db: Database, h: Hasher, token: string, password: string, now: int)
    returns (outcome: ResetOutcome)
    requires db.Valid()
    modifies db`users
    ensures db.Valid()
    ensures outcome == ResetTooShort <==> password == [] || JsLength(password) < 6
    ensures ResetCode(outcome) == 400 <==> JsLength(password) >= 6 && !TokenValid(old(db.users), token, now)
    ensures outcome == TokenInvalid <==> JsLength(password) >= 6 && !TokenValid(old(db.users), token, now)
    ensures outcome != PasswordReset ==> db.users == old(db.users)
    ensures outcome == PasswordReset ==>
      exists id :: id in old(db.users) && HoldsLiveToken(old(db.users)[id], token, now)
        && db.users == old(db.users)[id := Redeemed(old(db.users)[id], h.hash(password))]
    ensures outcome == PasswordReset ==> forall t :: !TokenValid(db.users, token, t)
  {
    if password == [] || JsLength(password) < 6 {
      return ResetTooShort;
    }
    if RenderResetPassword(db.users, token, now) == InvalidLink {
      return TokenInvalid;
    }
    var id :| id in db.users && HoldsLiveToken(db.users[id], token, now);
    RedeemedTokenIsSpent(db.users, id, token, h.hash(password), db.users[id := Redeemed(db.users[id], h.hash(password))]);
    db.users := db.users[id := Redeemed(db.users[id], h.hash(password))];
    outcome := PasswordReset;
  }

  /** Issuing a token and redeeming it: the redemption works within the
      hour and not after it, and a later second redemption always fails. */
  method ForgotThenReset(db: Database, h: Hasher, email: string, token: string, issuedAt: int,
                         host: string, password: string, redeemedAt: int, again: int)
    returns (issued: ForgotOutcome, first: ResetOutcome, second: ResetOutcome)
    requires db.Valid()
    requires forall id :: id in db.users ==> db.users[id].resetToken != Some(token)
    requires JsLength(password) >= 6
    requires redeemedAt <= again
    modifies db`users
    ensures db.Valid()
    ensures issued != UnknownEmail ==> (first == PasswordReset <==> redeemedAt < issuedAt + OneHour)
    ensures second != PasswordReset
  {
    var mail;
    issued, mail := ForgotPassword(db, email, token, issuedAt, host, true);
    if issued != UnknownEmail {
      ghost var id :| id in old(db.users) && old(db.users)[id].email == email
        && db.users == old(db.users)[id := old(db.users)[id].(resetToken := Some(token),
                                                              resetExpires := Some(issuedAt + OneHour))];
      IssuedTokenWindow(db.users, id, token, issuedAt, redeemedAt);
    }
    first := ResetPassword(db, h, token, password, redeemedAt);
    ghost var before := db.users;
    second := ResetPassword(db, h, token, password, again);
    if first != PasswordReset {
      ExpiredStaysExpired(before, token, redeemedAt, again);
    }
  }
}
