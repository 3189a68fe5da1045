/** controllers/denunciaController.js: the public feed, the details view,
    submitting a report and cancelling one. */
module DenunciaController {
  import opened Records
  import opened Helpers
  import Query
  import opened Store

  // ------------------------------------------------- attachment names

  /** `names.join(';')`. */
  function Join(names: seq<string>, sep: char): (s: string)
    ensures |names| == 1 ==> s == names[0]
  {
    if names == [] then []
    else if |names| == 1 then names[0]
    else names[0] + [sep] + Join(names[1..], sep)
  }

  /** `s.split(';')`: the pieces between separators, at least one. */
  function Split(s: string, sep: char): (pieces: seq<string>)
    ensures |pieces| >= 1
    ensures forall p :: p in pieces ==> sep !in p
  {
    if s == [] then [[]]
    else
      var rest := Split(s[1..], sep);
      if s[0] == sep then [[]] + rest
      else
        assert rest[0] in rest;
        [[s[0]] + rest[0]] + rest[1..]
  }

  /** A name with no separator splits into itself, and one followed by a
      separator comes off as the first piece. */
  lemma {:induction false} SplitFirst(a: string, sep: char, b: string)
    requires sep !in a
    ensures Split(a, sep) == [a]
    ensures Split(a + [sep] + b, sep) == [a] + Split(b, sep)
  {
    if a != [] {
      SplitFirst(a[1..], sep, b);
      assert (a + [sep] + b)[1..] == a[1..] + [sep] + b;
      assert [a[0]] + a[1..] == a;
    } else {
      assert a + [sep] + b == [sep] + b;
      assert ([sep] + b)[1..] == b;
    }
  }

  /** Splitting the joined names gives the names back, when there is at
      least one and none contains the separator. */
  lemma {:induction false} SplitJoin(names: seq<string>, sep: char)
    requires |names| >= 1
    requires forall n :: n in names ==> sep !in n
    ensures Split(Join(names, sep), sep) == names
  {
    if |names| == 1 {
      SplitFirst(names[0], sep, []);
    } else {
      SplitJoin(names[1..], sep);
      SplitFirst(names[0], sep, Join(names[1..], sep));
      assert [names[0]] + names[1..] == names;
    }
  }

  /** The files `cancelDenuncia` unlinks for a stored `nome_arquivo`: the
      basename of every `;`-separated piece, none when the column is empty. */
  function FilesToUnlink(nomeArquivo: string): (files: seq<string>)
    ensures nomeArquivo == [] ==> files == []
    ensures nomeArquivo != [] ==> |files| == |Split(nomeArquivo, ';')|
    ensures forall i :: 0 <= i < |files| ==> files[i] == SafeFileName(Split(nomeArquivo, ';')[i])
    ensures forall f :: f in files ==> '/' !in f
  {
    if nomeArquivo == [] then []
    else
      var pieces := Split(nomeArquivo, ';');
      seq(|pieces|, i requires 0 <= i < |pieces| => SafeFileName(pieces[i]))
  }

  /** For upload names that contain neither `/` nor `;`, the files
      unlinked on cancel are exactly the files stored on submit. The upload
      middleware's names keep the extension of the client's file name, which
      may contain `;` (see StoredNameWithSeparator). */
  lemma UnlinkWhatWasStored(files: seq<string>)
    requires |files| >= 1
    requires forall f :: f in files ==> f != [] && ';' !in f && '/' !in f
    ensures FilesToUnlink(Join(files, ';')) == files
  {
    SplitJoin(files, ';');
    JoinKeepsFirst(files, ';');
    assert files[0] in files;
    PlainPiecesKept(Join(files, ';'));
  }

  /** The joined names are at least as long as the first name. */
  lemma JoinKeepsFirst(names: seq<string>, sep: char)
    requires |names| >= 1
    ensures |Join(names, sep)| >= |names[0]|
  {
  }

  /** When no piece of a stored name holds `/`, cancel unlinks the pieces
      themselves. */
  lemma PlainPiecesKept(nomeArquivo: string)
    requires nomeArquivo != []
    requires forall p :: p in Split(nomeArquivo, ';') ==> '/' !in p
    ensures FilesToUnlink(nomeArquivo) == Split(nomeArquivo, ';')
  {
    var pieces := Split(nomeArquivo, ';');
    forall i | 0 <= i < |pieces|
      ensures FilesToUnlink(nomeArquivo)[i] == pieces[i]
    {
      assert pieces[i] in pieces;
    }
  }

  /** A stored name whose client-chosen extension holds `;`, such as
      `imagem-1-2.jp;g`, is split on cancel: the two pieces are unlinked
      and the upload itself stays on disk. */
  lemma StoredNameWithSeparator(a: string, b: string)
    requires ';' !in a && ';' !in b && '/' !in a && '/' !in b
    ensures FilesToUnlink(Join([a + [';'] + b], ';')) == [a, b]
    ensures a + [';'] + b !in FilesToUnlink(Join([a + [';'] + b], ';'))
  {
    var stored := a + [';'] + b;
    SplitFirst(a, ';', b);
    SplitFirst(b, ';', []);
    assert Split(stored, ';') == [a, b];
    assert FilesToUnlink(stored) == [a, b];
    assert stored[|a|] == ';';
  }

  // ------------------------------------------------------------- feed

  /** The statuses the feed shows: `status IN ('APROVADA', 'RESOLVIDA')`. */
  predicate IsPublic(r: Report)
  {
    r.status == Aprovada || r.status == Resolvida
  }

  /** `ORDER BY data_envio DESC`. */
  predicate NewerFirst(a: Report, b: Report)
  {
    a.dataEnvio >= b.dataEnvio
  }

  lemma NewerFirstIsTotal()
    ensures Query.TotalPreorder(NewerFirst)
  {
  }

  /** The rows `getFeed` selects, in the order it shows them. */
  function FeedRows(rows: seq<Report>): (feed: seq<Report>)
    ensures forall r :: r in feed <==> r in rows && IsPublic(r)
    ensures forall r :: IsPublic(r) ==> multiset(feed)[r] == multiset(rows)[r]
    ensures forall i, j :: 0 <= i < j < |feed| ==> feed[i].dataEnvio >= feed[j].dataEnvio
  {
    var kept := Query.Filter(rows, IsPublic);
    NewerFirstIsTotal();
    Query.SortBySorted(kept, NewerFirst);
    var feed := Query.SortBy(kept, NewerFirst);
    assert forall r :: r in feed <==> r in multiset(kept);
    feed
  }

  /** A feed entry: the row with its location passed through the
      geocoder, and the owner's name from the `LEFT JOIN` (none when the
      owner row is missing). */
  datatype FeedItem = FeedItem(denuncia: Report, nomeUsuario: Option<string>)

  function OwnerName(users: map<int, User>, r: Report): Option<string>
  {
    if r.idUsuario in users then Some(users[r.idUsuario].nomeCompleto) else None
  }

  /** `getFeed`: the public reports, newest first, locations unchanged by
      the geocoding stub. */
  function Feed(rows: seq<Report>, users: map<int, User>): (items: seq<FeedItem>)
    ensures |items| == |FeedRows(rows)|
    ensures forall i :: 0 <= i < |items| ==>
      items[i].denuncia == FeedRows(rows)[i] && items[i].nomeUsuario == OwnerName(users, FeedRows(rows)[i])
  {
    var feed := FeedRows(rows);
    seq(|feed|, i requires 0 <= i < |feed| =>
      FeedItem(feed[i].(localizacao := ReverseGeocode(feed[i].localizacao)), OwnerName(users, feed[i])))
  }

  /** No pending or rejected report ever reaches the feed. */
  lemma FeedHidesUnmoderated(rows: seq<Report>, users: map<int, User>, i: nat)
    requires i < |Feed(rows, users)|
    ensures Feed(rows, users)[i].denuncia.status != Pendente
    ensures Feed(rows, users)[i].denuncia.status != Rejeitada
  {
    assert FeedRows(rows)[i] in FeedRows(rows);
  }

  /** Against the store: the feed holds each approved or resolved report
      once per key that holds it, and nothing else. */
  lemma FeedOfStore(db: Database)
    requires db.Valid()
    ensures forall k :: k in db.reports && IsPublic(db.reports[k]) ==> db.reports[k] in FeedRows(db.Rows())
    ensures forall r :: r in FeedRows(db.Rows()) ==> r in db.reports.Values && IsPublic(r)
    ensures forall r :: IsPublic(r) ==> multiset(FeedRows(db.Rows()))[r] == Occurrences(db.reports, r)
  {
    db.ScanIsWholeTable();
    forall k | k in db.reports
      ensures db.reports[k] in db.Rows()
    {
      assert 0 <= k < db.nextReportId;
    }
  }

  // ---------------------------------------------------------- details

  /** `getDenunciaDetails`: a session whose `isAdmin` is exactly 1 sees any
      existing report; any other session only its own; `None` is the 404. */
  function Details(reports: map<int, Report>, session: Session, id: int): (r: Option<Report>)
    ensures r.Some? ==> id in reports && r.value == reports[id]
    ensures session.isAdmin == Number(1) ==> (r.Some? <==> id in reports)
    ensures session.isAdmin != Number(1) ==>
      (r.Some? <==> id in reports && reports[id].idUsuario == session.userId)
  {
    var isAdminUser := session.isAdmin == Number(1);
    if isAdminUser then
      if id in reports then Some(reports[id]) else None
    else if id in reports && reports[id].idUsuario == session.userId then Some(reports[id])
    else None
  }

  // ----------------------------------------------------------- submit

  const AnonymousName := "Anônimo"

  datatype SubmitOutcome = MissingFiles | Submitted(id: int)

  function SubmitCode(o: SubmitOutcome): int
  {
    match o
    case MissingFiles => 400
    case Submitted(_) => 302   // redirect to /feed
  }

  /** `submitDenuncia`, after the upload middleware has written `files`
      into the uploads directory. `anonimo` is the raw form field. The
      `INSERT` leaves the submission time and the rejection reason to the
      table's defaults, the current time `now` and `NULL`. */
  method SubmitDenuncia(db: Database, session: Session, titulo: string, descricao: string,
                        localizacao: string, anonimo: string, files: seq<string>, now: int)
    returns (outcome: SubmitOutcome)
    requires db.Valid()
    requires session.userId != 0   // the route is behind isAuthenticated
    modifies db
    ensures db.Valid()
    ensures db.users == old(db.users) && db.nextUserId == old(db.nextUserId)
    ensures SubmitCode(outcome) == if files == [] then 400 else 302
    ensures files == [] ==> outcome == MissingFiles
    ensures files == [] ==>
      db.reports == old(db.reports) && db.nextReportId == old(db.nextReportId) && db.uploads == old(db.uploads)
    ensures files != [] ==> outcome == Submitted(old(db.nextReportId))
    ensures files != [] ==>
      && db.nextReportId == old(db.nextReportId) + 1
      && db.uploads == old(db.uploads) + set f | f in files
      && old(db.nextReportId) !in old(db.reports)
      && old(db.nextReportId) in db.reports
      && db.reports == old(db.reports)[old(db.nextReportId) := db.reports[old(db.nextReportId)]]
    ensures files != [] ==>
      old(db.nextReportId) in db.reports &&
      var r := db.reports[old(db.nextReportId)];
      && r.status == Pendente && r.motivoRejeicao == None
      && r.idUsuario == session.userId && r.dataEnvio == now
      && r.titulo == titulo && r.descricao == descricao && r.localizacao == localizacao
      && r.nomeArquivo == Join(files, ';')
      && r.anonimo == (anonimo == "true")
      && r.nomeExibicao == (if anonimo == "true" then AnonymousName else session.nomeCompleto)
  {
    if files == [] {
      return MissingFiles;
    }
    var nomesArquivos := Join(files, ';');
    var isAnonimo := anonimo == "true";
    var nomeExibicao := if isAnonimo then AnonymousName else session.nomeCompleto;
    var id := db.nextReportId;
    db.reports := db.reports[id := Report(titulo, descricao, localizacao, nomesArquivos,
                                          session.userId, isAnonimo, nomeExibicao, Pendente, None, now)];
    db.nextReportId := id + 1;
    db.uploads := db.uploads + set f | f in files;
    outcome := Submitted(id);
  }

  // ----------------------------------------------------------- cancel

  datatype CancelOutcome = NotFoundOrForbidden | Cancelled

  function CancelCode(o: CancelOutcome): int
  {
    match o
    case NotFoundOrForbidden => 404
    case Cancelled => 302   // redirect to /perfil
  }

  /** `cancelDenuncia`: only the owner may cancel, whatever the status;
      the row goes, then each attachment is unlinked by its basename
      (unlink errors are ignored, so a file that is already gone is
      simply not there). */
  method CancelDenuncia(db: Database, session: Session, id: int)
    returns (outcome: CancelOutcome, unlinked: seq<string>)
    requires db.Valid()
    modifies db`reports, db`uploads
    ensures db.Valid()
    ensures outcome == Cancelled <==> id in old(db.reports) && old(db.reports)[id].idUsuario == session.userId
    ensures CancelCode(outcome) ==
      if id in old(db.reports) && old(db.reports)[id].idUsuario == session.userId then 302 else 404
    ensures outcome == NotFoundOrForbidden ==>
      db.reports == old(db.reports) && db.uploads == old(db.uploads) && unlinked == []
    ensures outcome == Cancelled ==>
      && db.reports == old(db.reports) - {id}
      && unlinked == FilesToUnlink(old(db.reports)[id].nomeArquivo)
      && db.uploads == old(db.uploads) - set f | f in unlinked
  {
    if !(id in db.reports && db.reports[id].idUsuario == session.userId) {
      return NotFoundOrForbidden, [];
    }
    var nomeArquivo := db.reports[id].nomeArquivo;
    db.reports := db.reports - {id};
    unlinked := [];
    if nomeArquivo != [] {
      unlinked := UnlinkFiles(db, Split(nomeArquivo, ';'));
    }
    outcome := Cancelled;
  }

  /** The `forEach` of `cancelDenuncia`: each name is reduced to its
      basename and that file leaves the uploads directory. */
  method UnlinkFiles(db: Database, arquivos: seq<string>) returns (unlinked: seq<string>)
    modifies db`uploads
    ensures |unlinked| == |arquivos|
    ensures forall k :: 0 <= k < |arquivos| ==> unlinked[k] == SafeFileName(arquivos[k])
    ensures db.uploads == old(db.uploads) - set f | f in unlinked
  {
    unlinked := [];
    var i := 0;
    while i < |arquivos|
      invariant 0 <= i <= |arquivos|
      invariant |unlinked| == i
      invariant forall k :: 0 <= k < i ==> unlinked[k] == SafeFileName(arquivos[k])
      invariant db.uploads == old(db.uploads) - set f | f in unlinked
    {
      var name := SafeFileName(arquivos[i]);
      db.uploads := db.uploads - {name};
      unlinked := unlinked + [name];
      i := i + 1;
    }
  }
}
