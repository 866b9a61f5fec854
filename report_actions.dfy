/** Incident reports: `createReport` and `updateReportStatus` in
    app/actions/reports.ts (the latter repeated in app/actions/admin.ts). */
module ReportActions {
  import opened Results
  import opened Identifiers
  import opened Store

  /** The status every new report starts in. */
  const ReceivedStatus: string := "received"

  /** The text fields of the report form; an absent field reads as empty
      (`null` and `""` take the same branches here). */
  datatype ReportForm = ReportForm(
    reportType: string,
    locationTag: string,
    incidentDatetime: string,
    description: string,
    relatedCaseId: string,
    consent: string)

  /** The case a report names, if that id is given and exists; an unknown id
      is dropped, not refused. */
  function RelatedCase(cases: seq<CaseRecord>, relatedCaseId: string): (r: Option<nat>)
    ensures relatedCaseId == [] ==> r.None?
    ensures r.Some? ==> r.value < |cases| && cases[r.value].caseId == relatedCaseId
    ensures relatedCaseId != [] && (exists i :: 0 <= i < |cases| && cases[i].caseId == relatedCaseId) ==> r.Some?
  {
    if relatedCaseId == [] then None else FindCase(cases, relatedCaseId)
  }

  /** What `createReport` decides: why it refuses, in order (a session, a
      type and a description, consent), or the row it inserts. */
  function CreateReportOutcome(users: seq<UserRecord>, cases: seq<CaseRecord>, reports: seq<Report>,
                               session: Option<nat>, form: ReportForm, year: nat)
    : (r: Result<Report, Failure>)
    ensures r == Err(Unauthorized) <==> !SignedIn(users, session)
    ensures r == Err(MissingReportFields) <==>
              SignedIn(users, session) && (form.reportType == [] || form.description == [])
    ensures r == Err(ConsentRequired) <==>
              SignedIn(users, session) && form.reportType != [] && form.description != [] && form.consent == []
    ensures r.Ok? <==>
              SignedIn(users, session) && form.reportType != [] && form.description != [] && form.consent != []
    ensures r.Ok? ==>
              r.value.userRef == session.value && r.value.userRef < |users| &&
              r.value.reportRef == NextReportRef(ReportRefs(reports), year) &&
              r.value.status == ReceivedStatus &&
              r.value.reportType == form.reportType && r.value.description == form.description &&
              r.value.locationTag == OrNull(form.locationTag) &&
              r.value.incidentDatetime == OrNull(form.incidentDatetime) &&
              r.value.relatedCase == RelatedCase(cases, form.relatedCaseId)
  {
    match RequireAuth(users, session)
    case Err(e) => Err(e)
    case Ok(u) =>
      if form.reportType == [] || form.description == [] then Err(MissingReportFields)
      else if form.consent == [] then Err(ConsentRequired)
      else Ok(Report(NextReportRef(ReportRefs(reports), year), u, RelatedCase(cases, form.relatedCaseId),
                     form.reportType, OrNull(form.locationTag), OrNull(form.incidentDatetime),
                     form.description, ReceivedStatus))
  }

  /** `createReport(formData)`, with the current year as a parameter: on
      success one report is appended and its ref returned; on failure the
      table is unchanged. */
  method CreateReport(db: Database, session: Option<nat>, form: ReportForm, year: nat)
    returns (r: Result<string, Failure>)
    requires db.Valid()
    modifies db`reports
    ensures db.Valid()
    ensures match CreateReportOutcome(db.users, db.cases, old(db.reports), session, form, year)
            case Err(e) => r == Err(e) && db.reports == old(db.reports)
            case Ok(row) => r == Ok(row.reportRef) && db.reports == old(db.reports) + [row]
  {
    if !SignedIn(db.users, session) {
      return Err(Unauthorized);
    }
    var user := session.value;
    if form.reportType == [] || form.description == [] {
      return Err(MissingReportFields);
    }
    if form.consent == [] {
      return Err(ConsentRequired);
    }
    var reportRef := NextReportRef(ReportRefs(db.reports), year);
    var related: Option<nat> := None;
    if form.relatedCaseId != [] {
      related := FindCase(db.cases, form.relatedCaseId);
    }
    var row := Report(reportRef, user, related, form.reportType, OrNull(form.locationTag),
                      OrNull(form.incidentDatetime), form.description, ReceivedStatus);
    NewReportKeepsInvariant(db.users, db.cases, db.accessRequests, db.participants, db.messages,
                            db.attachments, db.reports, db.branding, row);
    db.reports := db.reports + [row];
    r := Ok(reportRef);
  }

  /** A ref stored by `createReport` is new, and storing it keeps the next
      one new: while a year's refs are numbered up to its count, every
      report created in that year gets a ref no report has. */
  lemma CreatedReportRefIsFresh(users: seq<UserRecord>, cases: seq<CaseRecord>, reports: seq<Report>,
                                session: Option<nat>, form: ReportForm, year: nat)
    requires CreateReportOutcome(users, cases, reports, session, form, year).Ok?
    requires RefsNumberedUpTo(ReportRefs(reports), year,
                              CountWithPrefix(ReportRefs(reports), YearPrefix(ReportTag, year)))
    ensures var row := CreateReportOutcome(users, cases, reports, session, form, year).value;
            (forall i :: 0 <= i < |reports| ==> reports[i].reportRef != row.reportRef) &&
            RefsNumberedUpTo(ReportRefs(reports + [row]), year,
                             CountWithPrefix(ReportRefs(reports + [row]), YearPrefix(ReportTag, year)))
  {
    var row := CreateReportOutcome(users, cases, reports, session, form, year).value;
    var refs := ReportRefs(reports);
    NextReportRefIsFresh(refs, year);
    forall i | 0 <= i < |reports| ensures reports[i].reportRef != row.reportRef {
      assert reports[i].reportRef == refs[i];
    }
    NextReportRefKeepsNumbering(refs, year);
    assert ReportRefs(reports + [row]) == refs + [row.reportRef];
  }

  /** `updateReportStatus(reportId, newStatus)`: an admin may set any status
      text on any report; an unknown id changes nothing and still succeeds. */
  method UpdateReportStatus(db: Database, session: Option<nat>, reportId: nat, newStatus: string)
    returns (r: Outcome<Failure>)
    requires db.Valid()
    modifies db`reports
    ensures db.Valid()
    ensures match RequireAdmin(db.users, session)
            case Err(e) => r == Fail(e) && db.reports == old(db.reports)
            case Ok(_) =>
              r == Pass &&
              db.reports == if reportId < |old(db.reports)|
                            then old(db.reports)[reportId := old(db.reports)[reportId].(status := newStatus)]
                            else old(db.reports)
  {
    var auth := RequireAdmin(db.users, session);
    if auth.Err? {
      return Fail(auth.error);
    }
    if reportId < |db.reports| {
      db.reports := db.reports[reportId := db.reports[reportId].(status := newStatus)];
    }
    r := Pass;
  }
}
