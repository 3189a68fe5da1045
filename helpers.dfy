/** utils/helpers.js: CPF normalisation, the file-name guard used before a
    delete, the age rule, the geocoding stub and the notification text. */
module Helpers {
  import opened Records

  // ---------------------------------------------------------------- CPF

  /** The characters `\d` matches: ASCII digits. */
  predicate IsDigit(c: char)
  {
    '0' <= c <= '9'
  }

  predicate AllDigits(s: string)
  {
    forall i :: 0 <= i < |s| ==> IsDigit(s[i])
  }

  /** `s.replace(/\D/g, '')`: the digits of `s`, in order. */
  function Digits(s: string): (r: string)
    ensures AllDigits(r)
    ensures |r| <= |s|
  {
    if s == [] then []
    else if IsDigit(s[0]) then [s[0]] + Digits(s[1..])
    else Digits(s[1..])
  }

  /** `cleanCpf`: a missing value (`None`) cleans to the empty string. */
  function CleanCpf(cpf: Option<string>): (r: string)
    ensures AllDigits(r)
    ensures cpf.None? ==> r == []
  {
    match cpf
    case None => []
    case Some(s) => Digits(s)
  }

  /** Cleaning distributes over concatenation. */
  lemma {:induction false} DigitsAppend(a: string, b: string)
    ensures Digits(a + b) == Digits(a) + Digits(b)
  {
    if a == [] {
      assert a + b == b;
    } else {
      assert (a + b)[0] == a[0];
      assert (a + b)[1..] == a[1..] + b;
      DigitsAppend(a[1..], b);
    }
  }

  /** A string of digits is left as it is. */
  lemma {:induction false} DigitsOfDigits(s: string)
    requires AllDigits(s)
    ensures Digits(s) == s
  {
    if s != [] {
      DigitsOfDigits(s[1..]);
    }
  }

  /** A single character is kept exactly when it is a digit; with
      DigitsAppend this pins the result down to "the digits, in order". */
  lemma DigitsOfChar(c: char)
    ensures Digits([c]) == if IsDigit(c) then [c] else []
  {
    assert [c][1..] == [];
  }

  /** Every digit of `s` survives cleaning, as often as it occurs. */
  lemma {:induction false} DigitsKeepsDigits(s: string, c: char)
    requires IsDigit(c)
    ensures multiset(Digits(s))[c] == multiset(s)[c]
  {
    if s != [] {
      DigitsKeepsDigits(s[1..], c);
      assert s == [s[0]] + s[1..];
    }
  }

  /** `cleanCpf` is idempotent. */
  lemma CleanCpfIdempotent(cpf: Option<string>)
    ensures CleanCpf(Some(CleanCpf(cpf))) == CleanCpf(cpf)
  {
    DigitsOfDigits(CleanCpf(cpf));
  }

  /** `validateCpfLength`: the cleaned CPF when it has 11 digits, else
      `None` (the source's `false`). */
  function ValidateCpfLength(cpf: Option<string>): (r: Option<string>)
    ensures r.Some? <==> |CleanCpf(cpf)| == 11
    ensures r.Some? ==> r.value == CleanCpf(cpf) && AllDigits(r.value)
  {
    var cleaned := CleanCpf(cpf);
    if |cleaned| == 11 then Some(cleaned) else None
  }

  /** The handlers validate `cleanCpf(cpf)` rather than `cpf`; by
      idempotence this is the same as validating `cpf` itself. */
  lemma ValidateCleaned(cpf: Option<string>)
    ensures ValidateCpfLength(Some(CleanCpf(cpf))) == ValidateCpfLength(cpf)
  {
    CleanCpfIdempotent(cpf);
  }

  // ---------------------------------------------------------- file names

  /** `s` without its trailing slashes. */
  function TrimTrailingSlashes(s: string): (r: string)
    ensures r <= s
    ensures r == [] || r[|r| - 1] != '/'
    ensures TrailingSlashesDropped(s, r)
    ensures '/' !in s ==> r == s
  {
    if s != [] && s[|s| - 1] == '/' then TrimTrailingSlashes(s[..|s| - 1]) else s
  }

  /** The part of `s` after its last slash (all of `s` when it has none). */
  function AfterLastSlash(s: string): (r: string)
    ensures '/' !in r
    ensures |r| <= |s| && r == s[|s| - |r|..]
    ensures LastSegment(s, r)
    ensures '/' !in s ==> r == s
  {
    if s == [] then []
    else if s[|s| - 1] == '/' then []
    else AfterLastSlash(s[..|s| - 1]) + [s[|s| - 1]]
  }

  /** `t` is `s` with its trailing slashes dropped. */
  ghost predicate TrailingSlashesDropped(s: string, t: string)
  {
    && t <= s
    && (forall k :: |t| <= k < |s| ==> s[k] == '/')
    && (t == [] || t[|t| - 1] != '/')
  }

  /** `r` is what follows the last slash of `t` (all of `t` when it has
      none). */
  ghost predicate LastSegment(t: string, r: string)
  {
    && '/' !in r
    && |r| <= |t| && r == t[|t| - |r|..]
    && (r == t || t[|t| - |r| - 1] == '/')
  }

  /** `safeFileName` = POSIX `path.basename`: the last path component,
      that is, the part after the last slash once trailing slashes are
      dropped. */
  function SafeFileName(fileName: string): (r: string)
    ensures '/' !in r
    ensures '/' !in fileName ==> r == fileName
  {
    AfterLastSlash(TrimTrailingSlashes(fileName))
  }

  /** The basename is the last segment of the name once its trailing
      slashes are dropped. */
  lemma SafeFileNameIsBasename(fileName: string)
    ensures exists t :: TrailingSlashesDropped(fileName, t) && LastSegment(t, SafeFileName(fileName))
  {
    var t := TrimTrailingSlashes(fileName);
    assert TrailingSlashesDropped(fileName, t) && LastSegment(t, AfterLastSlash(t));
  }

  /** The basename is a contiguous piece of the original name. It holds no
      slash, so the path built from it names an entry of the uploads
      directory, or, for `.` and `..`, a directory, and, for the empty
      basename of `""` or `/`, the uploads directory itself; unlink refuses
      all three. */
  lemma SafeFileNameIsComponent(fileName: string)
    ensures exists i, j :: 0 <= i <= j <= |fileName| && SafeFileName(fileName) == fileName[i..j]
  {
    var t := TrimTrailingSlashes(fileName);
    var r := AfterLastSlash(t);
    assert r == fileName[|t| - |r|..|t|];
  }

  /** Worked cases: the last component, trailing slashes ignored; the
      root has an empty basename; `..` is kept as it is. */
  lemma SafeFileNameExamples()
    ensures SafeFileName("d/f") == "f"
    ensures SafeFileName("a/b/") == "b"
    ensures SafeFileName("/") == ""
    ensures SafeFileName("..") == ".."
  {
    assert "d/f"[..2] == "d/";
    assert AfterLastSlash("d/") == [];
    assert "a/b/"[..3] == "a/b";
    assert TrimTrailingSlashes("a/b/") == "a/b";
    assert "a/b"[..2] == "a/";
    assert AfterLastSlash("a/") == [];
    assert "/"[..0] == [];
    assert '/' !in "..";
  }

  /** Taking the basename twice changes nothing. */
  lemma SafeFileNameIdempotent(fileName: string)
    ensures SafeFileName(SafeFileName(fileName)) == SafeFileName(fileName)
  {
  }

  // ---------------------------------------------------------------- age

  /** The date exactly 18 calendar years before `today`. */
  function AgeLimit(today: Date): Date
  {
    Date(today.year - 18, today.month, today.day)
  }

  /** `isAdult`: born on or before the age limit. A person is an adult
      when 18 calendar years have passed, counting the birthday itself. */
  predicate IsAdult(birth: Date, today: Date): (adult: bool)
    ensures today.year - birth.year > 18 ==> adult
    ensures today.year - birth.year < 18 ==> !adult
    ensures today.year - birth.year == 18 ==>
      (adult <==> birth.month < today.month || (birth.month == today.month && birth.day <= today.day))
  {
    DateLe(birth, AgeLimit(today))
  }

  /** Anyone born earlier than an adult is an adult. */
  lemma AdultMonotoneInBirth(b1: Date, b2: Date, today: Date)
    requires DateLe(b1, b2) && IsAdult(b2, today)
    ensures IsAdult(b1, today)
  {
  }

  /** An adult stays adult as time passes. */
  lemma AdultMonotoneInToday(birth: Date, t1: Date, t2: Date)
    requires DateLe(t1, t2) && IsAdult(birth, t1)
    ensures IsAdult(birth, t2)
  {
  }

  /** The calendar-year rule: born 2010-01-01 is a minor on 2024-06-01, an
      adult on 2028-01-01 and a minor the day before. */
  lemma AdultBoundaryExample()
    ensures !IsAdult(Date(2010, 1, 1), Date(2024, 6, 1))
    ensures IsAdult(Date(2010, 1, 1), Date(2028, 1, 1))
    ensures !IsAdult(Date(2010, 1, 1), Date(2027, 12, 31))
  {
  }

  // ---------------------------------------------------------- geocoding

  /** `reverseGeocode`: both branches of the stub give back the input. */
  function ReverseGeocode(location: string): (r: string)
    ensures r == location
  {
    if location == [] || !StartsWith(location, "GPS: Lat") then location
    else location
  }

  // ------------------------------------------------------- notification

  const SubjectPrefix := "[EcoAlerta] Atualização: Denúncia "

  /** The signature appended to every notification body. */
  const Signature := "<br><p><em>Atenciosamente,<br>Equipe EcoAlerta.</em></p>"

  const DefaultReason := "Violação dos Termos de Uso."

  /** The subject line of a status notification. */
  function NotificationSubject(newStatus: string): (subject: string)
    ensures |SubjectPrefix| <= |subject| && subject[..|SubjectPrefix|] == SubjectPrefix
    ensures subject[|SubjectPrefix|..] == newStatus
  {
    SubjectPrefix + newStatus
  }

  /** The reason shown in a rejection: the given one, or the default one
      when it is empty (`rejectionReason || '...'`). */
  function ShownReason(reason: string): (r: string)
    ensures r != []
    ensures reason != [] ==> r == reason
    ensures reason == [] ==> r == DefaultReason
  {
    if reason == [] then DefaultReason else reason
  }

  /** `t` occurs in `s` as a contiguous piece. */
  ghost predicate Contains(s: string, t: string)
  {
    exists k :: 0 <= k <= |s| && t <= s[k..]
  }

  /** The body chosen by the `switch` on the new status, before the
      signature is appended. */
  function StatusBody(title: string, newStatus: string, reason: string): string
  {
    if newStatus == "APROVADA" then
      "\n                <h2>Sua denúncia foi Aprovada!</h2>\n                <p>O relato <strong>\""
      + title + "\"</strong> já está visível no Feed público.</p>\n                <p>Obrigado por contribuir com a comunidade.</p>\n            "
    else if newStatus == "REJEITADA" then
      RejectionHead(title) + ShownReason(reason) + RejectionTail
    else if newStatus == "RESOLVIDA" then
      "\n                <h2 style=\"color:green;\">Problema Resolvido!</h2>\n                <p>A denúncia <strong>\""
      + title + "\"</strong> foi marcada como resolvida.</p>\n            "
    else
      GenericBody(title, newStatus)
  }

  function RejectionHead(title: string): string
  {
    "\n                <h2>Atualização de Status</h2>\n                <p>A denúncia <strong>\""
    + title + "\"</strong> foi recusada.</p>\n                <p><strong>Motivo:</strong> "
  }

  const RejectionTail := "</p>\n            "

  const GenericHead := "<p>O status da denúncia \""

  function GenericBody(title: string, newStatus: string): string
  {
    GenericHead + title + "\" mudou para: " + newStatus + ".</p>"
  }

  /** The HTML body of a status notification. */
  function NotificationBody(title: string, newStatus: string, reason: string): (body: string)
    ensures |Signature| <= |body| && body[|body| - |Signature|..] == Signature
  {
    StatusBody(title, newStatus, reason) + Signature
  }

  /** Whatever sits between two strings is contained in the result. */
  lemma {:induction false} ContainsInfix(a: string, t: string, b: string, c: string)
    ensures Contains(a + t + b + c, t)
  {
    assert (a + t + b + c)[|a|..] == t + b + c;
  }

  /** A rejection notice shows the reason, or the default one when none
      was given. */
  lemma RejectionShowsReason(title: string, reason: string)
    ensures Contains(NotificationBody(title, "REJEITADA", reason), ShownReason(reason))
    ensures reason != [] ==> Contains(NotificationBody(title, "REJEITADA", reason), reason)
    ensures reason == [] ==> Contains(NotificationBody(title, "REJEITADA", reason), DefaultReason)
  {
    assert "REJEITADA"[0] != "APROVADA"[0];
    ContainsInfix(RejectionHead(title), ShownReason(reason), RejectionTail, Signature);
  }

  /** A status outside the three known ones gets the generic body, which
      names the status. */
  lemma UnknownStatusGeneric(title: string, newStatus: string, reason: string)
    requires newStatus != "APROVADA" && newStatus != "REJEITADA" && newStatus != "RESOLVIDA"
    ensures NotificationBody(title, newStatus, reason) == GenericBody(title, newStatus) + Signature
    ensures Contains(NotificationBody(title, newStatus, reason), newStatus)
  {
    ContainsInfix(GenericHead + title + "\" mudou para: ", newStatus, ".</p>", Signature);
  }

  /** The status notification for a report, as `sendNotificationEmail`
      builds it. */
  function Notification(to: string, title: string, newStatus: string, reason: string): (m: Mail)
    ensures m.to == to
    ensures m.subject == SubjectPrefix + newStatus
    ensures |Signature| <= |m.html| && m.html[|m.html| - |Signature|..] == Signature
    ensures newStatus == "REJEITADA" ==> Contains(m.html, ShownReason(reason))
  {
    RejectionShowsReason(title, reason);
    Mail(to, NotificationSubject(newStatus), NotificationBody(title, newStatus, reason))
  }
}
