/** The portal's tables (users, cases, access requests, case participants,
    messages, attachments, reports, branding) and the invariant the server
    actions keep.  A row's id is its position in its table: no action here
    deletes a row. */
module Store {
  import opened Results
  import opened Uploads

  datatype Role = User | Admin

  datatype RequestStatus = Pending | Approved | Denied

  /** `access_requests.status`, as the "already requested" errors print it:
      each status has its own text. */
  function StatusText(s: RequestStatus): (r: string)
    ensures r == "pending" <==> s == Pending
    ensures r == "approved" <==> s == Approved
    ensures r == "denied" <==> s == Denied
  {
    match s
    case Pending => "pending"
    case Approved => "approved"
    case Denied => "denied"
  }

  /** `value || null`: an empty form value is stored as SQL NULL. */
  function OrNull(s: string): (r: Option<string>)
    ensures r.None? <==> s == []
    ensures r.Some? ==> r.value == s
  {
    if s == [] then None else Some(s)
  }

  datatype UserRecord = UserRecord(fullName: string, email: string, passwordHash: string, role: Role)

  datatype CaseRecord = CaseRecord(
    caseId: string,
    title: string,
    category: string,
    locationTag: Option<string>,
    status: string,
    personName: string,
    personPhotoUrl: Option<string>,
    reasonSummary: Option<string>,
    offenceCategory: Option<string>,
    offenceDescription: Option<string>,
    summaryPublic: Option<string>,
    summaryInternal: Option<string>,
    createdBy: nat,
    updatedAt: Option<int>)

  datatype AccessRequest = AccessRequest(
    caseRef: nat,
    userRef: nat,
    status: RequestStatus,
    note: Option<string>,
    reviewedBy: Option<nat>,
    reviewedAt: Option<int>)

  /** A chat message; `senderRole` is the sender's role when it was sent. */
  datatype Message = Message(caseRef: nat, sender: nat, senderRole: Role, body: string, isInternalNote: bool)

  /** An attachment row; every attachment here belongs to a message. */
  datatype Attachment = Attachment(ownerId: nat, fileUrl: string, fileName: string, mimeType: string)

  datatype Report = Report(
    reportRef: string,
    userRef: nat,
    relatedCase: Option<nat>,
    reportType: string,
    locationTag: Option<string>,
    incidentDatetime: Option<string>,
    description: string,
    status: string)

  datatype BrandingConfig = BrandingConfig(isActive: bool)

  /** Every way an action can refuse.  `Unauthorized` and `Forbidden` are
      the exceptions `requireAuth` and `requireAdmin` throw, `DuplicateCaseId`
      the unique-key error of the retried insert, which `createCase`
      rethrows; the rest are the `{ error }` results. */
  datatype Failure =
    | Unauthorized
    | Forbidden
    | EmptyLookup
    | TooManyLookups
    | CaseIdRequired
    | CaseNotFound
    | AlreadyRequested(status: string)
    | AlreadyParticipant
    | RequestNotFoundOrProcessed
    | EmptyMessage
    | CaseClosed
    | InternalNoteForbidden
    | NoParticipantYet
    | AccessDenied
    | UploadFailed(reason: UploadError)
    | MissingCaseFields
    | DuplicateCaseId
    | MissingReportFields
    | ConsentRequired
    | IdentifierRequired
    | NoMatchingUser
    | AlreadyAdmin(email: string)
    | MissingRegistrationFields
    | PasswordTooShort
    | PasswordMismatch
    | EmailTaken
    | MissingCredentials
    | TooManyAttempts
    | InvalidCredentials

  // ---------------------------------------------------------------------
  // Sessions: requireAuth and requireAdmin
  // ---------------------------------------------------------------------

  /** The session cookie resolves to a user row (`getSession` returns null
      otherwise). */
  predicate SignedIn(users: seq<UserRecord>, session: Option<nat>) {
    session.Some? && session.value < |users|
  }

  /** `requireAuth()`: the signed-in user, or `Unauthorized`. */
  function RequireAuth(users: seq<UserRecord>, session: Option<nat>): (r: Result<nat, Failure>)
    ensures r.Ok? <==> SignedIn(users, session)
    ensures r.Ok? ==> r.value == session.value
    ensures r.Err? ==> r.error == Unauthorized
  {
    if SignedIn(users, session) then Ok(session.value) else Err(Unauthorized)
  }

  /** `requireAdmin()`: the signed-in admin, `Unauthorized` without a
      session, `Forbidden` for a signed-in non-admin. */
  function RequireAdmin(users: seq<UserRecord>, session: Option<nat>): (r: Result<nat, Failure>)
    ensures r.Ok? <==> SignedIn(users, session) && users[session.value].role == Admin
    ensures r.Ok? ==> r.value == session.value
    ensures r == Err(Unauthorized) <==> !SignedIn(users, session)
    ensures r == Err(Forbidden) <==> SignedIn(users, session) && users[session.value].role != Admin
  {
    match RequireAuth(users, session)
    case Err(e) => Err(e)
    case Ok(u) => if users[u].role == Admin then Ok(u) else Err(Forbidden)
  }

  // ---------------------------------------------------------------------
  // Lookups
  // ---------------------------------------------------------------------

  /** `SELECT id FROM cases WHERE case_id = ... LIMIT 1`: the first case
      with that public id. */
  function FindCase(cases: seq<CaseRecord>, caseId: string): (r: Option<nat>)
    ensures r.None? <==> forall i :: 0 <= i < |cases| ==> cases[i].caseId != caseId
    ensures r.Some? ==> r.value < |cases| && cases[r.value].caseId == caseId &&
                        forall i :: 0 <= i < r.value ==> cases[i].caseId != caseId
    decreases |cases|
  {
    if cases == [] then None
    else if cases[0].caseId == caseId then Some(0)
    else
      var rest := FindCase(cases[1..], caseId);
      assert forall i :: 1 <= i < |cases| ==> cases[i] == cases[1..][i - 1];
      match rest
      case None => None
      case Some(i) => Some(i + 1)
  }

  /** The access request a user already holds for a case, if any: the
      first in table order, as `LIMIT 1` over the insertion order reads it. */
  function FindRequest(requests: seq<AccessRequest>, caseRef: nat, userRef: nat): (r: Option<nat>)
    ensures r.None? <==> forall i :: 0 <= i < |requests| ==>
                           !(requests[i].caseRef == caseRef && requests[i].userRef == userRef)
    ensures r.Some? ==> r.value < |requests| &&
                        requests[r.value].caseRef == caseRef && requests[r.value].userRef == userRef &&
                        forall j :: 0 <= j < r.value ==> !(requests[j].caseRef == caseRef && requests[j].userRef == userRef)
    decreases |requests|
  {
    if requests == [] then None
    else if requests[0].caseRef == caseRef && requests[0].userRef == userRef then Some(0)
    else
      var rest := FindRequest(requests[1..], caseRef, userRef);
      assert forall i :: 1 <= i < |requests| ==> requests[i] == requests[1..][i - 1];
      match rest
      case None => None
      case Some(i) => Some(i + 1)
  }

  /** `SELECT COUNT(*) FROM case_participants WHERE case_id = ...` is not 0. */
  predicate HasParticipant(participants: set<(nat, nat)>, caseRef: nat) {
    exists p :: p in participants && p.0 == caseRef
  }

  /** The public case ids, in table order. */
  function CaseIds(cases: seq<CaseRecord>): (r: seq<string>)
    ensures |r| == |cases|
    ensures forall i :: 0 <= i < |cases| ==> r[i] == cases[i].caseId
  {
    seq(|cases|, i requires 0 <= i < |cases| => cases[i].caseId)
  }

  function ReportRefs(reports: seq<Report>): (r: seq<string>)
    ensures |r| == |reports|
    ensures forall i :: 0 <= i < |reports| ==> r[i] == reports[i].reportRef
  {
    seq(|reports|, i requires 0 <= i < |reports| => reports[i].reportRef)
  }

  // ---------------------------------------------------------------------
  // The invariant, table by table
  // ---------------------------------------------------------------------

  /** The unique key on `users.email`. */
  ghost predicate UniqueEmails(users: seq<UserRecord>) {
    forall i, j :: 0 <= i < |users| && 0 <= j < |users| && users[i].email == users[j].email ==> i == j
  }

  /** The unique key on `cases.case_id`, and every creator is a user. */
  ghost predicate CasesOk(users: seq<UserRecord>, cases: seq<CaseRecord>) {
    (forall i, j :: 0 <= i < |cases| && 0 <= j < |cases| && cases[i].caseId == cases[j].caseId ==> i == j) &&
    (forall i :: 0 <= i < |cases| ==> cases[i].createdBy < |users|)
  }

  /** One request's references and review fields: only a decided request
      has a reviewer and a review time, and the reviewer is an admin. */
  ghost predicate RequestOk(users: seq<UserRecord>, caseCount: nat, r: AccessRequest) {
    r.caseRef < caseCount && r.userRef < |users| &&
    (r.status == Pending <==> r.reviewedBy.None?) &&
    (r.status == Pending <==> r.reviewedAt.None?) &&
    (r.reviewedBy.Some? ==> r.reviewedBy.value < |users| && users[r.reviewedBy.value].role == Admin)
  }

  /** Every request is well formed, a user holds at most one request per
      case, and every approved request's user takes part in its case. */
  ghost predicate RequestsOk(users: seq<UserRecord>, caseCount: nat, requests: seq<AccessRequest>,
                             participants: set<(nat, nat)>) {
    (forall i :: 0 <= i < |requests| ==> RequestOk(users, caseCount, requests[i])) &&
    OneRequestPerPair(requests) &&
    (forall i :: 0 <= i < |requests| && requests[i].status == Approved ==>
       (requests[i].caseRef, requests[i].userRef) in participants)
  }

  ghost predicate OneRequestPerPair(requests: seq<AccessRequest>) {
    forall i, j :: 0 <= i < |requests| && 0 <= j < |requests| && i != j ==>
      !(requests[i].caseRef == requests[j].caseRef && requests[i].userRef == requests[j].userRef)
  }

  /** `case_participants` holds (case, user) pairs of existing rows. */
  ghost predicate ParticipantsOk(userCount: nat, caseCount: nat, participants: set<(nat, nat)>) {
    forall p :: p in participants ==> p.0 < caseCount && p.1 < userCount
  }

  /** What `sendMessage` lets through: internal notes only from admins, a
      user's messages only in cases they take part in, an admin's only in
      cases that have a participant. */
  ghost predicate MessageOk(userCount: nat, caseCount: nat, participants: set<(nat, nat)>, m: Message) {
    m.caseRef < caseCount && m.sender < userCount &&
    (m.isInternalNote ==> m.senderRole == Admin) &&
    (m.senderRole == User ==> (m.caseRef, m.sender) in participants) &&
    (m.senderRole == Admin ==> HasParticipant(participants, m.caseRef))
  }

  ghost predicate MessagesOk(userCount: nat, caseCount: nat, participants: set<(nat, nat)>,
                             messages: seq<Message>) {
    forall i :: 0 <= i < |messages| ==> MessageOk(userCount, caseCount, participants, messages[i])
  }

  ghost predicate AttachmentsOk(messageCount: nat, attachments: seq<Attachment>) {
    forall i :: 0 <= i < |attachments| ==> attachments[i].ownerId < messageCount
  }

  ghost predicate ReportsOk(userCount: nat, caseCount: nat, reports: seq<Report>) {
    forall i :: 0 <= i < |reports| ==>
      reports[i].userRef < userCount &&
      (reports[i].relatedCase.Some? ==> reports[i].relatedCase.value < caseCount)
  }

  /** Requests only move forward: old rows keep their case and user, and
      only a pending row may change at all. */
  ghost predicate RequestsEvolve(before: seq<AccessRequest>, after: seq<AccessRequest>) {
    |before| <= |after| &&
    forall i :: 0 <= i < |before| ==>
      after[i].caseRef == before[i].caseRef && after[i].userRef == before[i].userRef &&
      (before[i].status != Pending ==> after[i] == before[i])
  }

  lemma RequestsEvolveTransitive(a: seq<AccessRequest>, b: seq<AccessRequest>, c: seq<AccessRequest>)
    requires RequestsEvolve(a, b) && RequestsEvolve(b, c)
    ensures RequestsEvolve(a, c)
  {
  }

  /** Promotions only ever raise a role. */
  ghost predicate RolesOnlyRise(before: seq<UserRecord>, after: seq<UserRecord>) {
    |before| <= |after| &&
    forall i :: 0 <= i < |before| ==> before[i].role == Admin ==> after[i].role == Admin
  }

  /** Adding participants never breaks a message's or a request's rules. */
  lemma MoreParticipantsKeepInvariant(users: seq<UserRecord>, caseCount: nat, requests: seq<AccessRequest>,
                                      messages: seq<Message>, p: set<(nat, nat)>, q: set<(nat, nat)>)
    requires p <= q
    requires RequestsOk(users, caseCount, requests, p)
    requires MessagesOk(|users|, caseCount, p, messages)
    ensures RequestsOk(users, caseCount, requests, q)
    ensures MessagesOk(|users|, caseCount, q, messages)
  {
    forall i | 0 <= i < |messages| ensures MessageOk(|users|, caseCount, q, messages[i]) {
      var m := messages[i];
      assert MessageOk(|users|, caseCount, p, m);
      if m.senderRole == Admin {
        var w :| w in p && w.0 == m.caseRef;
        assert w in q;
      }
    }
  }

  /** More cases never break a rule that only bounds case references. */
  lemma MoreCasesKeepInvariant(users: seq<UserRecord>, n: nat, m: nat, requests: seq<AccessRequest>,
                               participants: set<(nat, nat)>, messages: seq<Message>, reports: seq<Report>)
    requires n <= m
    requires RequestsOk(users, n, requests, participants)
    requires ParticipantsOk(|users|, n, participants)
    requires MessagesOk(|users|, n, participants, messages)
    requires ReportsOk(|users|, n, reports)
    ensures RequestsOk(users, m, requests, participants)
    ensures ParticipantsOk(|users|, m, participants)
    ensures MessagesOk(|users|, m, participants, messages)
    ensures ReportsOk(|users|, m, reports)
  {
    assert forall i :: 0 <= i < |requests| ==> RequestOk(users, n, requests[i]);
    assert forall i :: 0 <= i < |messages| ==> MessageOk(|users|, n, participants, messages[i]);
  }

  /** The whole invariant over the eight tables. */
  ghost predicate Consistent(users: seq<UserRecord>, cases: seq<CaseRecord>, requests: seq<AccessRequest>,
                             participants: set<(nat, nat)>, messages: seq<Message>,
                             attachments: seq<Attachment>, reports: seq<Report>, branding: seq<BrandingConfig>) {
    UniqueEmails(users) &&
    CasesOk(users, cases) &&
    RequestsOk(users, |cases|, requests, participants) &&
    ParticipantsOk(|users|, |cases|, participants) &&
    MessagesOk(|users|, |cases|, participants, messages) &&
    AttachmentsOk(|messages|, attachments) &&
    ReportsOk(|users|, |cases|, reports) &&
    |branding| <= 1
  }

  /** Adding a case with a fresh id, created by an existing user, keeps
      the invariant. */
  lemma NewCaseKeepsInvariant(users: seq<UserRecord>, cases: seq<CaseRecord>, requests: seq<AccessRequest>,
                              participants: set<(nat, nat)>, messages: seq<Message>,
                              attachments: seq<Attachment>, reports: seq<Report>,
                              branding: seq<BrandingConfig>, row: CaseRecord)
    requires Consistent(users, cases, requests, participants, messages, attachments, reports, branding)
    requires row.caseId !in CaseIds(cases) && row.createdBy < |users|
    ensures Consistent(users, cases + [row], requests, participants, messages, attachments, reports, branding)
  {
    var after := cases + [row];
    assert forall i :: 0 <= i < |cases| ==> after[i] == cases[i] && cases[i].caseId == CaseIds(cases)[i];
    MoreCasesKeepInvariant(users, |cases|, |after|, requests, participants, messages, reports);
  }

  /** Appending a message that obeys the message rules, with attachments
      that belong to it, keeps the invariant. */
  lemma NewMessageKeepsInvariant(users: seq<UserRecord>, cases: seq<CaseRecord>, requests: seq<AccessRequest>,
                                 participants: set<(nat, nat)>, messages: seq<Message>,
                                 attachments: seq<Attachment>, reports: seq<Report>,
                                 branding: seq<BrandingConfig>, m: Message, extra: seq<Attachment>)
    requires Consistent(users, cases, requests, participants, messages, attachments, reports, branding)
    requires MessageOk(|users|, |cases|, participants, m)
    requires forall i :: 0 <= i < |extra| ==> extra[i].ownerId == |messages|
    ensures Consistent(users, cases, requests, participants, messages + [m], attachments + extra, reports, branding)
  {
    var ms := messages + [m];
    assert forall i :: 0 <= i < |messages| ==> ms[i] == messages[i];
    var atts := attachments + extra;
    assert forall i :: 0 <= i < |atts| ==> atts[i].ownerId < |ms| by {
      forall i | 0 <= i < |atts| ensures atts[i].ownerId < |ms| {
        if i < |attachments| {
          assert atts[i] == attachments[i];
        } else {
          assert atts[i] == extra[i - |attachments|];
        }
      }
    }
  }

  /** A new user whose email no user has yet keeps the invariant: every
      other rule only bounds user references from above. */
  lemma NewUserKeepsInvariant(users: seq<UserRecord>, cases: seq<CaseRecord>, requests: seq<AccessRequest>,
                              participants: set<(nat, nat)>, messages: seq<Message>,
                              attachments: seq<Attachment>, reports: seq<Report>,
                              branding: seq<BrandingConfig>, row: UserRecord)
    requires Consistent(users, cases, requests, participants, messages, attachments, reports, branding)
    requires forall i :: 0 <= i < |users| ==> users[i].email != row.email
    ensures Consistent(users + [row], cases, requests, participants, messages, attachments, reports, branding)
  {
    var after := users + [row];
    assert forall i :: 0 <= i < |users| ==> after[i] == users[i];
    assert RequestsOk(after, |cases|, requests, participants) by {
      forall i | 0 <= i < |requests| ensures RequestOk(after, |cases|, requests[i]) {
        assert RequestOk(users, |cases|, requests[i]);
      }
    }
  }

  /** Raising roles, with every email kept, keeps the invariant: a
      reviewer who was an admin still is one. */
  lemma RaisedRolesKeepInvariant(users: seq<UserRecord>, after: seq<UserRecord>, cases: seq<CaseRecord>,
                                 requests: seq<AccessRequest>, participants: set<(nat, nat)>,
                                 messages: seq<Message>, attachments: seq<Attachment>, reports: seq<Report>,
                                 branding: seq<BrandingConfig>)
    requires Consistent(users, cases, requests, participants, messages, attachments, reports, branding)
    requires |after| == |users| && RolesOnlyRise(users, after)
    requires forall i :: 0 <= i < |users| ==> after[i].email == users[i].email
    ensures Consistent(after, cases, requests, participants, messages, attachments, reports, branding)
  {
    assert RequestsOk(after, |cases|, requests, participants) by {
      forall i | 0 <= i < |requests| ensures RequestOk(after, |cases|, requests[i]) {
        assert RequestOk(users, |cases|, requests[i]);
      }
    }
  }

  /** A report filed by an existing user, about an existing case if any,
      keeps the invariant. */
  lemma NewReportKeepsInvariant(users: seq<UserRecord>, cases: seq<CaseRecord>, requests: seq<AccessRequest>,
                                participants: set<(nat, nat)>, messages: seq<Message>,
                                attachments: seq<Attachment>, reports: seq<Report>,
                                branding: seq<BrandingConfig>, row: Report)
    requires Consistent(users, cases, requests, participants, messages, attachments, reports, branding)
    requires row.userRef < |users| && (row.relatedCase.Some? ==> row.relatedCase.value < |cases|)
    ensures Consistent(users, cases, requests, participants, messages, attachments, reports + [row], branding)
  {
    var after := reports + [row];
    assert forall i :: 0 <= i < |reports| ==> after[i] == reports[i];
  }

  /** The database: one field per table. */
  class Database {
    var users: seq<UserRecord>
    var cases: seq<CaseRecord>
    var accessRequests: seq<AccessRequest>
    var participants: set<(nat, nat)>
    var messages: seq<Message>
    var attachments: seq<Attachment>
    var reports: seq<Report>
    var branding: seq<BrandingConfig>

    ghost predicate Valid()
      reads this
    {
      Consistent(users, cases, accessRequests, participants, messages, attachments, reports, branding)
    }

    constructor()
      ensures Valid()
      ensures users == [] && cases == [] && accessRequests == [] && participants == {}
      ensures messages == [] && attachments == [] && reports == [] && branding == []
    {
      users := [];
      cases := [];
      accessRequests := [];
      participants := {};
      messages := [];
      attachments := [];
      reports := [];
      branding := [];
    }
  }
}
