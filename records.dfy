/** The rows, the session and the values shared by the request handlers:
    the `users` and `denuncias` tables become records, the session cookie
    becomes a record, and the few JavaScript values whose dynamic type
    matters (`req.session.isAdmin`) are spelt out. */
module Records {

  datatype Option<+T> = None | Some(value: T)

  /** A calendar date (year, month, day), compared lexicographically. */
  datatype Date = Date(year: int, month: int, day: int)

  predicate DateLe(a: Date, b: Date)
  {
    a.year < b.year
    || (a.year == b.year && a.month < b.month)
    || (a.year == b.year && a.month == b.month && a.day <= b.day)
  }

  /** The four values the handlers ever write to `denuncias.status`. */
  datatype Status = Pendente | Aprovada | Rejeitada | Resolvida

  /** A row of `denuncias`; its key is kept by the table. */
  datatype Report = Report(
    titulo: string,
    descricao: string,
    localizacao: string,
    nomeArquivo: string,           // attachment names joined by ';'
    idUsuario: nat,                // owner
    anonimo: bool,
    nomeExibicao: string,          // denormalised display name
    status: Status,
    motivoRejeicao: Option<string>,
    dataEnvio: int)                // submission time, ms since the epoch

  /** A row of `users`; its key is kept by the table. */
  datatype User = User(
    nomeCompleto: string,
    cpf: string,
    dataNascimento: Date,
    email: string,
    passwordHash: string,
    isAdmin: int,                  // TINYINT column, 0 or 1
    termsAcceptedAt: Option<int>,
    resetToken: Option<string>,
    resetExpires: Option<int>)

  /** The JavaScript values `req.session.isAdmin` can hold. */
  datatype JsValue = Undefined | Number(n: int) | Boolean(b: bool)

  /** `req.session`; `userId == 0` is an absent (falsy) id. */
  datatype Session = Session(userId: nat, nomeCompleto: string, email: string, isAdmin: JsValue)

  /** An outgoing e-mail, as handed to the mail transport. */
  datatype Mail = Mail(to: string, subject: string, html: string)

  /** The password-hashing capability: `hash` and `verify` stand for
      bcrypt.hash and bcrypt.compare. */
  datatype Hasher = Hasher(hash: string -> string, verify: (string, string) -> bool)

  /** A hasher accepts every password against its own hash. */
  ghost predicate Sound(h: Hasher)
  {
    forall p :: h.verify(p, h.hash(p))
  }

  /** `s.length` in JavaScript: the number of UTF-16 code units, where a
      character outside the Basic Multilingual Plane takes two. */
  function JsLength(s: string): (n: nat)
    ensures |s| <= n <= 2 * |s|
    ensures (forall i :: 0 <= i < |s| ==> s[i] as int <= 0xFFFF) ==> n == |s|
  {
    if s == [] then 0
    else (if s[0] as int > 0xFFFF then 2 else 1) + JsLength(s[1..])
  }

  /** The length of a concatenation is the sum of the lengths. */
  lemma {:induction false} JsLengthAppend(a: string, b: string)
    ensures JsLength(a + b) == JsLength(a) + JsLength(b)
  {
    if a != [] {
      assert (a + b)[0] == a[0];
      assert (a + b)[1..] == a[1..] + b;
      JsLengthAppend(a[1..], b);
    } else {
      assert a + b == b;
    }
  }

  /** One character takes two code units exactly when it lies outside the
      Basic Multilingual Plane, and one otherwise. */
  lemma JsLengthOfChar(c: char)
    ensures JsLength([c]) == if c as int > 0xFFFF then 2 else 1
  {
    assert [c][1..] == [];
  }

  /** An emoji followed by a letter is three code units long. */
  lemma MixedLength()
    ensures JsLength("\U{1F600}a") == 3
  {
    JsLengthOfChar('\U{1F600}');
    JsLengthOfChar('a');
    JsLengthAppend("\U{1F600}", "a");
    assert "\U{1F600}" + "a" == "\U{1F600}a";
  }

  /** Three emoji make a six-unit JavaScript string. */
  lemma EmojiLength()
    ensures |"\U{1F600}\U{1F600}\U{1F600}"| == 3
    ensures JsLength("\U{1F600}\U{1F600}\U{1F600}") == 6
  {
    var e := "\U{1F600}\U{1F600}\U{1F600}";
    assert e[1..] == "\U{1F600}\U{1F600}";
    assert e[1..][1..] == "\U{1F600}";
  }

  /** `a` is a prefix of `s` (`String.prototype.startsWith`). */
  predicate StartsWith(s: string, a: string)
  {
    |a| <= |s| && s[..|a|] == a
  }
}
