/** controllers/adminController.js: the moderation panel's ordering,
    approving or rejecting a report, and marking one as resolved. */
module AdminController {
  import opened Records
  import opened Helpers
  import Query
  import opened Store
  import DenunciaController

  // ------------------------------------------------------------- panel

  /** `FIELD(status, 'PENDENTE', 'APROVADA', 'RESOLVIDA', 'REJEITADA')`. */
  function Rank(s: Status): (rank: nat)
    ensures 1 <= rank <= 4
    ensures s == Pendente <==> rank == 1
  {
    match s
    case Pendente => 1
    case Aprovada => 2
    case Resolvida => 3
    case Rejeitada => 4
  }

  /** `ORDER BY FIELD(status, ...), data_envio DESC`. */
  predicate PanelBefore(a: Report, b: Report)
  {
    Rank(a.status) < Rank(b.status)
    || (Rank(a.status) == Rank(b.status) && a.dataEnvio >= b.dataEnvio)
  }

  lemma PanelBeforeIsTotal()
    ensures Query.TotalPreorder(PanelBefore)
  {
  }

  /** `getAdminPanel`: every report, grouped by status rank and newest
      first within a group. */
  function AdminPanel(rows: seq<Report>): (panel: seq<Report>)
    ensures multiset(panel) == multiset(rows)
    ensures forall i, j :: 0 <= i < j < |panel| ==>
      Rank(panel[i].status) < Rank(panel[j].status)
      || (Rank(panel[i].status) == Rank(panel[j].status) && panel[i].dataEnvio >= panel[j].dataEnvio)
  {
    PanelBeforeIsTotal();
    Query.SortBySorted(rows, PanelBefore);
    Query.SortBy(rows, PanelBefore)
  }

  /** On the panel every pending report comes before every other one. */
  lemma PendingFirst(rows: seq<Report>, i: nat, j: nat)
    requires i < |AdminPanel(rows)| && j < |AdminPanel(rows)|
    requires AdminPanel(rows)[j].status == Pendente && AdminPanel(rows)[i].status != Pendente
    ensures j < i
  {
  }

  /** Against the store: the panel lists every report once per key that
      holds it, and nothing else. */
  lemma PanelOfStore(db: Database)
    requires db.Valid()
    ensures forall r :: multiset(AdminPanel(db.Rows()))[r] == Occurrences(db.reports, r)
    ensures forall k :: k in db.reports ==> db.reports[k] in AdminPanel(db.Rows())
  {
    db.ScanIsWholeTable();
    forall k | k in db.reports
      ensures db.reports[k] in AdminPanel(db.Rows())
    {
      assert 0 <= k < db.nextReportId;
      assert db.reports[k] in multiset(db.Rows());
    }
  }

  // -------------------------------------------------------- moderation

  datatype ModerationOutcome = InvalidStatus | StatusUpdated

  function ModerationCode(o: ModerationOutcome): int
  {
    match o
    case InvalidStatus => 400
    case StatusUpdated => 200
  }

  /** The notification the handlers send after a change of status: one
      e-mail to the owner, when the report joins to an owner row. */
  function StatusNotice(reports: map<int, Report>, users: map<int, User>, id: int,
                        newStatus: string, reason: string): (mail: Option<Mail>)
    ensures mail.Some? <==> id in reports && reports[id].idUsuario in users
    ensures mail.Some? ==>
      && mail.value.to == users[reports[id].idUsuario].email
      && mail.value.subject == SubjectPrefix + newStatus
      && mail.value.html == NotificationBody(reports[id].titulo, newStatus, reason)
  {
    if id in reports && reports[id].idUsuario in users then
      var r := reports[id];
      Some(Notification(users[r.idUsuario].email, r.titulo, newStatus, reason))
    else None
  }

  /** `rejectionReason || null`. */
  function StoredReason(reason: string): (stored: Option<string>)
    ensures stored.None? <==> reason == []
    ensures stored.Some? ==> stored.value == reason
  {
    if reason == [] then None else Some(reason)
  }

  /** `updateDenunciaStatus`: any status but `APROVADA` or `REJEITADA` is
      refused before the store is touched. Otherwise the report (whatever
      its current status) gets the new status and the reason, or none when
      the reason is empty, even when approving; an unknown id changes
      nothing and still answers 200. The e-mail is sent without being
      awaited, so its fate never reaches the answer. */
  method UpdateDenunciaStatus(db: Database, id: int, newStatus: string, rejectionReason: string)
    returns (outcome: ModerationOutcome, mail: Option<Mail>)
    requires db.Valid()
    modifies db`reports
    ensures db.Valid()
    ensures outcome == InvalidStatus <==> newStatus != "APROVADA" && newStatus != "REJEITADA"
    ensures ModerationCode(outcome) == if newStatus == "APROVADA" || newStatus == "REJEITADA" then 200 else 400
    ensures outcome == InvalidStatus ==> db.reports == old(db.reports) && mail == None
    ensures outcome == StatusUpdated && id !in old(db.reports) ==> db.reports == old(db.reports)
    ensures outcome == StatusUpdated && id in old(db.reports) ==>
      db.reports == old(db.reports)[id := old(db.reports)[id].(
        status := if newStatus == "APROVADA" then Aprovada else Rejeitada,
        motivoRejeicao := StoredReason(rejectionReason))]
    ensures outcome == StatusUpdated ==>
      mail == StatusNotice(old(db.reports), db.users, id, newStatus, rejectionReason)
  {
    if newStatus != "APROVADA" && newStatus != "REJEITADA" {
      return InvalidStatus, None;
    }
    var status := if newStatus == "APROVADA" then Aprovada else Rejeitada;
    mail := StatusNotice(db.reports, db.users, id, newStatus, rejectionReason);
    if id in db.reports {
      db.reports := db.reports[id := db.reports[id].(status := status,
                                                      motivoRejeicao := StoredReason(rejectionReason))];
    }
    outcome := StatusUpdated;
  }

  /** `resolveDenuncia`: sets `RESOLVIDA` whatever the current status,
      keeps the stored reason, and always answers 200. */
  method ResolveDenuncia(db: Database, id: int) returns (mail: Option<Mail>)
    requires db.Valid()
    modifies db`reports
    ensures db.Valid()
    ensures id !in old(db.reports) ==> db.reports == old(db.reports)
    ensures id in old(db.reports) ==>
      db.reports == old(db.reports)[id := old(db.reports)[id].(status := Resolvida)]
    ensures mail == StatusNotice(old(db.reports), db.users, id, "RESOLVIDA", "")
  {
    mail := StatusNotice(db.reports, db.users, id, "RESOLVIDA", "");
    if id in db.reports {
      db.reports := db.reports[id := db.reports[id].(status := Resolvida)];
    }
  }

  /** Neither handler checks the current status, so a rejected report can
      be resolved; it then carries its rejection reason and is shown on
      the public feed. */
  lemma ResolvingRejectedPublishes(rows: seq<Report>, i: nat)
    requires i < |rows| && rows[i].status == Rejeitada
    ensures rows[i] !in DenunciaController.FeedRows(rows)
    ensures rows[i].(status := Resolvida) in DenunciaController.FeedRows(rows[i := rows[i].(status := Resolvida)])
  {
    var resolved := rows[i := rows[i].(status := Resolvida)];
    assert resolved[i] in resolved;
  }
}
