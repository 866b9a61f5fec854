/** The case server actions of app/actions/cases.ts: public lookup,
    approving and denying access requests (repeated verbatim in
    app/actions/admin.ts), creating a case, changing its status, and
    sending a chat message. */
module CaseActions {
  import opened Results
  import opened Text
  import opened Identifiers
  import opened Uploads
  import opened RateLimit
  import opened Store

  const LookupLimit: int := 10
  const LookupWindowMs: int := 60000
  const DefaultCaseStatus: string := "Open"
  const ClosedStatus: string := "Closed"
  const ImagePlaceholderBody: string := "[Image attachment]"
  const CasePhotoFolder: string := "cases"

  // ---------------------------------------------------------------------
  // publicCaseLookup
  // ---------------------------------------------------------------------

  /** What the public lookup reveals of a case: never the internal summary. */
  datatype CaseView = CaseView(caseId: string, status: string, locationTag: Option<string>,
                               summaryPublic: Option<string>, canChat: bool)

  datatype LookupAnswer = NotFound | Found(view: CaseView)

  /** `WHERE upper(case_id) = ... LIMIT 1`: the first case whose id matches
      the query ignoring letter case. */
  function FindCaseByUpperId(cases: seq<CaseRecord>, query: string): (r: Option<nat>)
    ensures r.None? <==> forall i :: 0 <= i < |cases| ==> ToUpper(cases[i].caseId) != query
    ensures r.Some? ==> r.value < |cases| && ToUpper(cases[r.value].caseId) == query &&
                        forall i :: 0 <= i < r.value ==> ToUpper(cases[i].caseId) != query
    decreases |cases|
  {
    if cases == [] then None
    else if ToUpper(cases[0].caseId) == query then Some(0)
    else
      var rest := FindCaseByUpperId(cases[1..], query);
      assert forall i :: 1 <= i < |cases| ==> cases[i] == cases[1..][i - 1];
      match rest
      case None => None
      case Some(i) => Some(i + 1)
  }

  /** The normalised lookup key: trimmed and upper-cased; a missing form
      value gives the empty key. */
  function LookupKey(input: Option<string>): (r: string)
    ensures input.Some? ==> r == ToUpper(Trim(input.value))
    ensures r == [] <==> input.None? || AllSpace(input.value)
  {
    match input
    case None => []
    case Some(s) => ToUpper(Trim(s))
  }

  /** The answer for a non-empty key that got past the rate limiter. */
  function LookupAnswerFor(users: seq<UserRecord>, cases: seq<CaseRecord>, session: Option<nat>, key: string)
    : (r: LookupAnswer)
    ensures r.NotFound? <==> forall i :: 0 <= i < |cases| ==> ToUpper(cases[i].caseId) != key
    ensures r.Found? ==> ToUpper(r.view.caseId) == key && r.view.canChat == SignedIn(users, session) &&
                         exists i :: 0 <= i < |cases| && cases[i].caseId == r.view.caseId &&
                                     cases[i].status == r.view.status &&
                                     cases[i].summaryPublic == r.view.summaryPublic
    ensures r.Found? ==>
              FindCaseByUpperId(cases, key).Some? &&
              var c := cases[FindCaseByUpperId(cases, key).value];
              r.view == CaseView(c.caseId, c.status, c.locationTag, c.summaryPublic, SignedIn(users, session))
  {
    match FindCaseByUpperId(cases, key)
    case None => NotFound
    case Some(i) =>
      var c := cases[i];
      Found(CaseView(c.caseId, c.status, c.locationTag, c.summaryPublic, SignedIn(users, session)))
  }

  /** `publicCaseLookup(formData)`: an empty key is refused before the
      limiter is consulted; each key may be looked up ten times a minute. */
  method PublicCaseLookup(db: Database, limiter: RateLimiter, session: Option<nat>, input: Option<string>,
                          now: int) returns (r: Result<LookupAnswer, Failure>)
    modifies limiter
    ensures var key := LookupKey(input);
            if key == [] then r == Err(EmptyLookup) && limiter.entries == old(limiter.entries)
            else
              var (entries, verdict) := Step(old(limiter.entries), "lookup:" + key, LookupLimit, LookupWindowMs, now);
              limiter.entries == entries &&
              r == (if verdict.success then Ok(LookupAnswerFor(db.users, db.cases, session, key))
                    else Err(TooManyLookups))
  {
    var key := LookupKey(input);
    if key == [] {
      return Err(EmptyLookup);
    }
    var verdict := limiter.Check("lookup:" + key, LookupLimit, LookupWindowMs, now);
    if !verdict.success {
      return Err(TooManyLookups);
    }
    r := Ok(LookupAnswerFor(db.users, db.cases, session, key));
  }

  /** The lookup cannot leak the internal summary: changing it changes no
      answer. */
  lemma LookupIgnoresInternalSummary(users: seq<UserRecord>, cases: seq<CaseRecord>, session: Option<nat>,
                                     key: string, i: nat, hidden: Option<string>)
    requires i < |cases|
    ensures LookupAnswerFor(users, cases[i := cases[i].(summaryInternal := hidden)], session, key)
         == LookupAnswerFor(users, cases, session, key)
  {
    var cases' := cases[i := cases[i].(summaryInternal := hidden)];
    var a := FindCaseByUpperId(cases, key);
    var b := FindCaseByUpperId(cases', key);
    assert forall j :: 0 <= j < |cases| ==> cases'[j].caseId == cases[j].caseId;
    if a.Some? && b.Some? {
      assert a.value == b.value;
    }
  }

  // ---------------------------------------------------------------------
  // approveAccessRequest / denyAccessRequest
  // ---------------------------------------------------------------------

  /** Who may approve which request: an admin, and only a pending one. */
  function ApproveCheck(users: seq<UserRecord>, requests: seq<AccessRequest>, session: Option<nat>,
                        requestId: nat): (r: Result<nat, Failure>)
    ensures r.Ok? <==> RequireAdmin(users, session).Ok? && requestId < |requests| &&
                       requests[requestId].status == Pending
    ensures r.Ok? ==> r.value == session.value && users[r.value].role == Admin
    ensures r.Err? && RequireAdmin(users, session).Ok? ==> r.error == RequestNotFoundOrProcessed
    ensures RequireAdmin(users, session).Err? ==> r == RequireAdmin(users, session)
  {
    match RequireAdmin(users, session)
    case Err(e) => Err(e)
    case Ok(admin) =>
      if requestId < |requests| && requests[requestId].status == Pending then Ok(admin)
      else Err(RequestNotFoundOrProcessed)
  }

  /** A pending request after review: decided, by this admin, at this time. */
  function Reviewed(r: AccessRequest, decision: RequestStatus, admin: nat, now: int): (r': AccessRequest)
    requires decision != Pending
    ensures r'.caseRef == r.caseRef && r'.userRef == r.userRef && r'.note == r.note
    ensures r'.status == decision && r'.reviewedBy == Some(admin) && r'.reviewedAt == Some(now)
  {
    r.(status := decision, reviewedBy := Some(admin), reviewedAt := Some(now))
  }

  /** Reviewing one pending request by an admin keeps the request
      invariant, provided an approval's pair takes part in the case. */
  lemma ReviewKeepsInvariant(users: seq<UserRecord>, caseCount: nat, requests: seq<AccessRequest>,
                             participants: set<(nat, nat)>, id: nat, decision: RequestStatus,
                             admin: nat, now: int)
    requires RequestsOk(users, caseCount, requests, participants)
    requires id < |requests| && requests[id].status == Pending && decision != Pending
    requires admin < |users| && users[admin].role == Admin
    requires decision == Approved ==> (requests[id].caseRef, requests[id].userRef) in participants
    ensures RequestsOk(users, caseCount, requests[id := Reviewed(requests[id], decision, admin, now)], participants)
    ensures RequestsEvolve(requests, requests[id := Reviewed(requests[id], decision, admin, now)])
  {
  }

  /** `approveAccessRequest(requestId)`: only a pending request is
      approved; its (case, user) pair then takes part in the case, added
      once however often the insert runs.  Otherwise nothing changes. */
  method ApproveAccessRequest(db: Database, session: Option<nat>, requestId: nat, now: int)
    returns (r: Outcome<Failure>)
    requires db.Valid()
    modifies db`accessRequests, db`participants
    ensures db.Valid()
    ensures RequestsEvolve(old(db.accessRequests), db.accessRequests)
    ensures old(db.participants) <= db.participants
    ensures match ApproveCheck(db.users, old(db.accessRequests), session, requestId)
            case Err(e) =>
              r == Fail(e) && db.accessRequests == old(db.accessRequests) &&
              db.participants == old(db.participants)
            case Ok(admin) =>
              var req := old(db.accessRequests)[requestId];
              r == Pass &&
              db.accessRequests == old(db.accessRequests)[requestId := Reviewed(req, Approved, admin, now)] &&
              db.participants == old(db.participants) + {(req.caseRef, req.userRef)}
  {
    var check := ApproveCheck(db.users, db.accessRequests, session, requestId);
    if check.Err? {
      return Fail(check.error);
    }
    var admin := check.value;
    var req := db.accessRequests[requestId];
    var pair := (req.caseRef, req.userRef);
    MoreParticipantsKeepInvariant(db.users, |db.cases|, db.accessRequests, db.messages,
                                  db.participants, db.participants + {pair});
    ReviewKeepsInvariant(db.users, |db.cases|, db.accessRequests, db.participants + {pair},
                         requestId, Approved, admin, now);
    db.accessRequests := db.accessRequests[requestId := Reviewed(req, Approved, admin, now)];
    db.participants := db.participants + {pair};
    r := Pass;
  }

  /** Approving twice changes nothing the second time and reports an error. */
  lemma ApproveOnlyOnce(users: seq<UserRecord>, requests: seq<AccessRequest>, session: Option<nat>,
                        requestId: nat, now: int)
    requires ApproveCheck(users, requests, session, requestId).Ok?
    ensures var admin := ApproveCheck(users, requests, session, requestId).value;
            var after := requests[requestId := Reviewed(requests[requestId], Approved, admin, now)];
            ApproveCheck(users, after, session, requestId) == Err(RequestNotFoundOrProcessed)
  {
  }

  /** `denyAccessRequest(requestId)`: for an admin it always succeeds; it
      denies the request only when that request is pending, and otherwise
      changes nothing. */
  method DenyAccessRequest(db: Database, session: Option<nat>, requestId: nat, now: int)
    returns (r: Outcome<Failure>)
    requires db.Valid()
    modifies db`accessRequests
    ensures db.Valid()
    ensures RequestsEvolve(old(db.accessRequests), db.accessRequests)
    ensures match RequireAdmin(db.users, session)
            case Err(e) => r == Fail(e) && db.accessRequests == old(db.accessRequests)
            case Ok(admin) =>
              r == Pass &&
              db.accessRequests ==
                if requestId < |old(db.accessRequests)| && old(db.accessRequests)[requestId].status == Pending
                then old(db.accessRequests)[requestId := Reviewed(old(db.accessRequests)[requestId], Denied, admin, now)]
                else old(db.accessRequests)
  {
    var auth := RequireAdmin(db.users, session);
    if auth.Err? {
      return Fail(auth.error);
    }
    var admin := auth.value;
    if requestId < |db.accessRequests| && db.accessRequests[requestId].status == Pending {
      ReviewKeepsInvariant(db.users, |db.cases|, db.accessRequests, db.participants,
                           requestId, Denied, admin, now);
      db.accessRequests := db.accessRequests[requestId := Reviewed(db.accessRequests[requestId], Denied, admin, now)];
    }
    r := Pass;
  }

  // ---------------------------------------------------------------------
  // createCase
  // ---------------------------------------------------------------------

  /** The text fields of the new-case form; an absent field reads as empty. */
  datatype CaseForm = CaseForm(
    title: string,
    category: string,
    locationTag: string,
    status: string,
    personName: string,
    reasonSummary: string,
    offenceCategory: string,
    offenceDescription: string,
    summaryPublic: string,
    summaryInternal: string)

  /** The case id the insert keeps: the next sequential id, or, when that
      one is taken (the unique-key error), the one retry with the random
      suffix; `None` when the retry collides too. */
  function CaseIdToInsert(ids: seq<string>, year: nat, randomSuffix: nat): (r: Option<string>)
    requires randomSuffix < RandomSuffixBound
    ensures r.Some? ==> r.value !in ids && YearPrefix(CaseTag, year) <= r.value
    ensures r.Some? ==> r.value == NextCaseId(ids, year) || r.value == CaseId(year, randomSuffix)
    ensures r.None? <==> NextCaseId(ids, year) in ids && CaseId(year, randomSuffix) in ids
  {
    var first := NextCaseId(ids, year);
    if first !in ids then Some(first)
    else
      var retry := CaseId(year, randomSuffix);
      if retry !in ids then Some(retry) else None
  }

  /** While the year's ids are all sequential ones below one million, the
      first id tried is free and the random retry never happens. */
  lemma NoRetryWhileSequential(ids: seq<string>, year: nat, randomSuffix: nat)
    requires randomSuffix < RandomSuffixBound
    requires SequentialCaseIds(ids, year)
    ensures CaseIdToInsert(ids, year, randomSuffix) == Some(NextCaseId(ids, year))
  {
    NextCaseIdIsFresh(ids, year);
  }

  /** The row `createCase` inserts, or why it refuses: an admin, then
      title, category and person name, then the photo upload, then a free
      case id. */
  function CreateCaseOutcome(users: seq<UserRecord>, cases: seq<CaseRecord>, session: Option<nat>,
                             form: CaseForm, photo: Option<ImageFile>, year: nat, now: nat, uuid: string,
                             randomSuffix: nat): (r: Result<CaseRecord, Failure>)
    requires randomSuffix < RandomSuffixBound
    ensures RequireAdmin(users, session).Err? ==> r == Err(RequireAdmin(users, session).error)
    ensures r == Err(MissingCaseFields) <==>
              RequireAdmin(users, session).Ok? &&
              (form.title == [] || form.category == [] || form.personName == [])
    ensures r.Err? && r.error.UploadFailed? <==>
              RequireAdmin(users, session).Ok? && form.title != [] && form.category != [] && form.personName != [] &&
              PhotoUpload(photo, now, uuid).Err?
    ensures r == Err(DuplicateCaseId) <==>
              RequireAdmin(users, session).Ok? && form.title != [] && form.category != [] && form.personName != [] &&
              PhotoUpload(photo, now, uuid).Ok? && CaseIdToInsert(CaseIds(cases), year, randomSuffix).None?
    ensures r.Ok? <==>
              RequireAdmin(users, session).Ok? && form.title != [] && form.category != [] && form.personName != [] &&
              PhotoUpload(photo, now, uuid).Ok? && CaseIdToInsert(CaseIds(cases), year, randomSuffix).Some?
    ensures r.Ok? ==>
              r.value == NewCaseRow(form, CaseIdToInsert(CaseIds(cases), year, randomSuffix).value,
                                    PhotoUpload(photo, now, uuid).value, session.value) &&
              r.value.caseId !in CaseIds(cases)
  {
    match RequireAdmin(users, session)
    case Err(e) => Err(e)
    case Ok(admin) =>
      if form.title == [] || form.category == [] || form.personName == [] then Err(MissingCaseFields)
      else
        match PhotoUpload(photo, now, uuid)
        case Err(e) => Err(e)
        case Ok(photoUrl) =>
          match CaseIdToInsert(CaseIds(cases), year, randomSuffix)
          case None => Err(DuplicateCaseId)
          case Some(id) => Ok(NewCaseRow(form, id, photoUrl, admin))
  }

  /** The photo step: a non-empty photo is uploaded to `cases/`, and a
      failed upload ends the action with its message. */
  function PhotoUpload(photo: Option<ImageFile>, now: nat, uuid: string): (r: Result<Option<string>, Failure>)
    ensures !(photo.Some? && photo.value.size > 0) ==> r == Ok(None)
    ensures photo.Some? && photo.value.size > 0 ==>
              var saved := SaveImageToPublic(photo, CasePhotoFolder, DefaultMaxSizeBytes, now, uuid);
              (saved.Ok? ==> r == Ok(Some(saved.value.url))) &&
              (saved.Err? ==> r == Err(UploadFailed(saved.error)))
  {
    if photo.Some? && photo.value.size > 0 then
      match SaveImageToPublic(photo, CasePhotoFolder, DefaultMaxSizeBytes, now, uuid)
      case Err(e) => Err(UploadFailed(e))
      case Ok(img) => Ok(Some(img.url))
    else Ok(None)
  }

  /** The inserted row: empty optional fields become NULL and an empty
      status becomes `"Open"`. */
  function NewCaseRow(form: CaseForm, caseId: string, photoUrl: Option<string>, admin: nat): (r: CaseRecord)
    ensures r.caseId == caseId && r.createdBy == admin && r.personPhotoUrl == photoUrl && r.updatedAt.None?
    ensures r.title == form.title && r.category == form.category && r.personName == form.personName
    ensures form.status == [] ==> r.status == "Open"
    ensures form.status != [] ==> r.status == form.status
    ensures r.locationTag == OrNull(form.locationTag) && r.reasonSummary == OrNull(form.reasonSummary)
    ensures r.offenceCategory == OrNull(form.offenceCategory) &&
            r.offenceDescription == OrNull(form.offenceDescription)
    ensures r.summaryInternal == OrNull(form.summaryInternal) && r.summaryPublic == OrNull(form.summaryPublic)
  {
    CaseRecord(caseId, form.title, form.category, OrNull(form.locationTag),
               if form.status == [] then DefaultCaseStatus else form.status,
               form.personName, photoUrl, OrNull(form.reasonSummary),
               OrNull(form.offenceCategory), OrNull(form.offenceDescription),
               OrNull(form.summaryPublic), OrNull(form.summaryInternal), admin, None)
  }

  /** The reads and checks of `createCase`, up to the insert: admin,
      required fields, photo upload, then the sequential id or, when that
      one is taken, the one retry with the random suffix.  This is the
      executable, statement-by-statement form of `CreateCaseOutcome`. */
  method PrepareCase(db: Database, session: Option<nat>, form: CaseForm, photo: Option<ImageFile>, year: nat,
                     now: nat, uuid: string, randomSuffix: nat) returns (r: Result<CaseRecord, Failure>)
    requires randomSuffix < RandomSuffixBound
    ensures r == CreateCaseOutcome(db.users, db.cases, session, form, photo, year, now, uuid, randomSuffix)
  {
    var auth := RequireAdmin(db.users, session);
    if auth.Err? {
      return Err(auth.error);
    }
    var admin := auth.value;
    if form.title == [] || form.category == [] || form.personName == [] {
      return Err(MissingCaseFields);
    }
    var photoUrl: Option<string> := None;
    if photo.Some? && photo.value.size > 0 {
      var uploaded := SaveImageToPublic(photo, CasePhotoFolder, DefaultMaxSizeBytes, now, uuid);
      if uploaded.Err? {
        return Err(UploadFailed(uploaded.error));
      }
      photoUrl := Some(uploaded.value.url);
    }
    var ids := CaseIds(db.cases);
    var caseId := NextCaseId(ids, year);
    if caseId in ids {
      caseId := CaseId(year, randomSuffix);
      if caseId in ids {
        return Err(DuplicateCaseId);
      }
    }
    r := Ok(NewCaseRow(form, caseId, photoUrl, admin));
  }

  /** `createCase(formData)` with the year, the clock, the UUID and the
      random retry suffix passed in: on success exactly one case row, with
      an id no other case has, is appended. */
  method CreateCase(db: Database, session: Option<nat>, form: CaseForm, photo: Option<ImageFile>, year: nat,
                    now: nat, uuid: string, randomSuffix: nat) returns (r: Result<string, Failure>)
    requires db.Valid()
    requires randomSuffix < RandomSuffixBound
    modifies db`cases
    ensures db.Valid()
    ensures match CreateCaseOutcome(db.users, old(db.cases), session, form, photo, year, now, uuid, randomSuffix)
            case Err(e) => r == Err(e) && db.cases == old(db.cases)
            case Ok(row) => r == Ok(row.caseId) && db.cases == old(db.cases) + [row]
  {
    var prepared := PrepareCase(db, session, form, photo, year, now, uuid, randomSuffix);
    if prepared.Err? {
      return Err(prepared.error);
    }
    var row := prepared.value;
    NewCaseKeepsInvariant(db.users, db.cases, db.accessRequests, db.participants, db.messages,
                          db.attachments, db.reports, db.branding, row);
    db.cases := db.cases + [row];
    r := Ok(row.caseId);
  }

  // ---------------------------------------------------------------------
  // updateCaseStatus
  // ---------------------------------------------------------------------

  /** `updateCaseStatus(caseUuid, newStatus)`: any string is accepted as
      the new status, from any status; the row's other fields stay as they
      were, apart from the update time.  An unknown case changes nothing. */
  method UpdateCaseStatus(db: Database, session: Option<nat>, caseRef: nat, newStatus: string, now: int)
    returns (r: Outcome<Failure>)
    requires db.Valid()
    modifies db`cases
    ensures db.Valid()
    ensures match RequireAdmin(db.users, session)
            case Err(e) => r == Fail(e) && db.cases == old(db.cases)
            case Ok(_) =>
              r == Pass &&
              db.cases == if caseRef < |old(db.cases)|
                          then old(db.cases)[caseRef := old(db.cases)[caseRef].(status := newStatus, updatedAt := Some(now))]
                          else old(db.cases)
  {
    var auth := RequireAdmin(db.users, session);
    if auth.Err? {
      return Fail(auth.error);
    }
    if caseRef < |db.cases| {
      db.cases := db.cases[caseRef := db.cases[caseRef].(status := newStatus, updatedAt := Some(now))];
    }
    r := Pass;
  }

  // ---------------------------------------------------------------------
  // sendMessage
  // ---------------------------------------------------------------------

  /** The checks of `sendMessage`, in order: a session; some text or an
      image; the case exists; a closed case takes messages from admins
      only; internal notes come from admins only; an admin needs the case
      to have a participant, anyone else must be one.  On success, the
      sender. */
  function SendMessageCheck(users: seq<UserRecord>, cases: seq<CaseRecord>, participants: set<(nat, nat)>,
                            session: Option<nat>, caseRef: nat, body: string, hasImage: bool,
                            isInternal: bool): (r: Result<nat, Failure>)
    ensures r == Err(Unauthorized) <==> !SignedIn(users, session)
    ensures r == Err(EmptyMessage) <==> SignedIn(users, session) && body == [] && !hasImage
    ensures r == Err(CaseNotFound) <==> SignedIn(users, session) && (body != [] || hasImage) && caseRef >= |cases|
    ensures r == Err(CaseClosed) <==>
              SignedIn(users, session) && (body != [] || hasImage) && caseRef < |cases| &&
              users[session.value].role.User? && cases[caseRef].status == ClosedStatus
    ensures r == Err(InternalNoteForbidden) <==>
              SignedIn(users, session) && (body != [] || hasImage) && caseRef < |cases| &&
              users[session.value].role.User? && cases[caseRef].status != ClosedStatus && isInternal
    ensures r == Err(NoParticipantYet) <==>
              SignedIn(users, session) && (body != [] || hasImage) && caseRef < |cases| &&
              users[session.value].role.Admin? && !HasParticipant(participants, caseRef)
    ensures r == Err(AccessDenied) <==>
              SignedIn(users, session) && (body != [] || hasImage) && caseRef < |cases| &&
              users[session.value].role.User? && cases[caseRef].status != ClosedStatus && !isInternal &&
              (caseRef, session.value) !in participants
    ensures r.Ok? <==>
              SignedIn(users, session) && (body != [] || hasImage) && caseRef < |cases| &&
              (users[session.value].role.Admin? ==> HasParticipant(participants, caseRef)) &&
              (users[session.value].role.User? ==>
                 cases[caseRef].status != ClosedStatus && !isInternal && (caseRef, session.value) in participants)
    ensures r.Ok? ==> r.value == session.value
  {
    match RequireAuth(users, session)
    case Err(e) => Err(e)
    case Ok(u) =>
      var admin := users[u].role.Admin?;
      if body == [] && !hasImage then Err(EmptyMessage)
      else if caseRef >= |cases| then Err(CaseNotFound)
      else if cases[caseRef].status == ClosedStatus && !admin then Err(CaseClosed)
      else if isInternal && !admin then Err(InternalNoteForbidden)
      else if admin then
        if HasParticipant(participants, caseRef) then Ok(u) else Err(NoParticipantYet)
      else if (caseRef, u) in participants then Ok(u)
      else Err(AccessDenied)
  }

  /** `body || "[Image attachment]"`. */
  function MessageBody(body: string): (r: string)
    ensures r != []
    ensures body == [] ==> r == "[Image attachment]"
    ensures body != [] ==> r == body
  {
    if body == [] then ImagePlaceholderBody else body
  }

  /** The trimmed text of the `body` form value; a value that is not a
      string reads as empty. */
  function BodyText(bodyInput: Option<string>): string {
    match bodyInput
    case None => []
    case Some(s) => Trim(s)
  }

  /** What a successful `sendMessage` writes: the message row, and the
      attachment row when an image was uploaded. */
  function SendMessageEffect(users: seq<UserRecord>, cases: seq<CaseRecord>, participants: set<(nat, nat)>,
                             messageCount: nat, session: Option<nat>, caseRef: nat, bodyInput: Option<string>,
                             image: Option<ImageFile>, isInternal: bool, now: nat, uuid: string)
    : (r: Result<(Message, Option<Attachment>), Failure>)
    ensures var hasImage := image.Some? && image.value.size > 0;
            var check := SendMessageCheck(users, cases, participants, session, caseRef,
                                          BodyText(bodyInput), hasImage, isInternal);
            (check.Err? ==> r == Err(check.error)) &&
            (r.Ok? ==>
               check.Ok? &&
               r.value.0 == Message(caseRef, check.value, users[check.value].role,
                                    MessageBody(BodyText(bodyInput)), isInternal) &&
               (r.value.1.Some? <==> hasImage) &&
               (r.value.1.Some? ==> r.value.1.value.ownerId == messageCount)) &&
            (r.Err? && check.Ok? ==> hasImage && r.error.UploadFailed?)
    ensures var hasImage := image.Some? && image.value.size > 0;
            var check := SendMessageCheck(users, cases, participants, session, caseRef,
                                          BodyText(bodyInput), hasImage, isInternal);
            check.Ok? && !hasImage ==> r.Ok? && r.value.1.None?
    ensures var hasImage := image.Some? && image.value.size > 0;
            var check := SendMessageCheck(users, cases, participants, session, caseRef,
                                          BodyText(bodyInput), hasImage, isInternal);
            check.Ok? && hasImage ==>
              var up := SaveImageToPublic(image, "chat/" + cases[caseRef].caseId, DefaultMaxSizeBytes, now, uuid);
              (up.Err? ==> r == Err(UploadFailed(up.error))) &&
              (up.Ok? ==> r.Ok? &&
                          r.value.1 == Some(Attachment(messageCount, up.value.url, up.value.fileName,
                                                       up.value.mimeType)))
  {
    var body := BodyText(bodyInput);
    var hasImage := image.Some? && image.value.size > 0;
    match SendMessageCheck(users, cases, participants, session, caseRef, body, hasImage, isInternal)
    case Err(e) => Err(e)
    case Ok(u) =>
      var m := Message(caseRef, u, users[u].role, MessageBody(body), isInternal);
      if !hasImage then Ok((m, None))
      else
        match SaveImageToPublic(image, "chat/" + cases[caseRef].caseId, DefaultMaxSizeBytes, now, uuid)
        case Err(e) => Err(UploadFailed(e))
        case Ok(img) => Ok((m, Some(Attachment(messageCount, img.url, img.fileName, img.mimeType))))
  }

  function AsSeq<T>(o: Option<T>): (r: seq<T>)
    ensures o.None? ==> r == []
    ensures o.Some? ==> r == [o.value]
  {
    match o
    case None => []
    case Some(x) => [x]
  }

  /** Every message that passes the checks satisfies the message
      invariant, and its attachment belongs to it. */
  lemma EffectKeepsMessageRules(users: seq<UserRecord>, cases: seq<CaseRecord>, participants: set<(nat, nat)>,
                                messageCount: nat, session: Option<nat>, caseRef: nat, bodyInput: Option<string>,
                                image: Option<ImageFile>, isInternal: bool, now: nat, uuid: string)
    requires SendMessageEffect(users, cases, participants, messageCount, session, caseRef, bodyInput,
                               image, isInternal, now, uuid).Ok?
    ensures var rows := SendMessageEffect(users, cases, participants, messageCount, session, caseRef, bodyInput,
                                          image, isInternal, now, uuid).value;
            MessageOk(|users|, |cases|, participants, rows.0) &&
            forall k :: 0 <= k < |AsSeq(rows.1)| ==> AsSeq(rows.1)[k].ownerId == messageCount
  {
  }

  /** The reads and checks of `sendMessage`, and the upload: the rows to
      write, or why nothing is written.  This is the executable,
      statement-by-statement form of `SendMessageEffect`. */
  method PrepareMessage(db: Database, session: Option<nat>, caseRef: nat, bodyInput: Option<string>,
                        image: Option<ImageFile>, isInternalField: string, now: nat, uuid: string)
    returns (r: Result<(Message, Option<Attachment>), Failure>)
    ensures r == SendMessageEffect(db.users, db.cases, db.participants, |db.messages|, session, caseRef,
                                   bodyInput, image, isInternalField == "true", now, uuid)
  {
    if !SignedIn(db.users, session) {
      return Err(Unauthorized);
    }
    var user := session.value;
    var role := db.users[user].role;
    var body := BodyText(bodyInput);
    var isInternal := isInternalField == "true";
    var hasImage := image.Some? && image.value.size > 0;
    if body == [] && !hasImage {
      return Err(EmptyMessage);
    }
    if caseRef >= |db.cases| {
      return Err(CaseNotFound);
    }
    if db.cases[caseRef].status == ClosedStatus && !role.Admin? {
      return Err(CaseClosed);
    }
    if isInternal && !role.Admin? {
      return Err(InternalNoteForbidden);
    }
    if role.Admin? {
      if !HasParticipant(db.participants, caseRef) {
        return Err(NoParticipantYet);
      }
    } else if (caseRef, user) !in db.participants {
      return Err(AccessDenied);
    }
    var attachment: Option<Attachment> := None;
    if hasImage {
      var uploaded := SaveImageToPublic(image, "chat/" + db.cases[caseRef].caseId, DefaultMaxSizeBytes, now, uuid);
      if uploaded.Err? {
        return Err(UploadFailed(uploaded.error));
      }
      var img := uploaded.value;
      attachment := Some(Attachment(|db.messages|, img.url, img.fileName, img.mimeType));
    }
    r := Ok((Message(caseRef, user, role, MessageBody(body), isInternal), attachment));
  }

  /** Appends one message and its attachments, which already satisfy the
      message invariant. */
  method AppendMessage(db: Database, message: Message, extra: seq<Attachment>)
    requires db.Valid()
    requires MessageOk(|db.users|, |db.cases|, db.participants, message)
    requires forall k :: 0 <= k < |extra| ==> extra[k].ownerId == |db.messages|
    modifies db`messages, db`attachments
    ensures db.Valid()
    ensures db.messages == old(db.messages) + [message] && db.attachments == old(db.attachments) + extra
  {
    NewMessageKeepsInvariant(db.users, db.cases, db.accessRequests, db.participants, db.messages,
                             db.attachments, db.reports, db.branding, message, extra);
    db.messages, db.attachments := db.messages + [message], db.attachments + extra;
  }

  /** `sendMessage(formData)` with `case_id`, `body`, `image` and
      `is_internal` (the note flag is set only by the text `"true"`), and
      the clock and UUID for the upload.  A failed check or upload writes
      nothing; otherwise exactly one message is appended, and one
      attachment iff an image came with it. */
  method SendMessage(db: Database, session: Option<nat>, caseRef: nat, bodyInput: Option<string>,
                     image: Option<ImageFile>, isInternalField: string, now: nat, uuid: string)
    returns (r: Outcome<Failure>)
    requires db.Valid()
    modifies db`messages, db`attachments
    ensures db.Valid()
    ensures match SendMessageEffect(db.users, db.cases, db.participants, |old(db.messages)|, session, caseRef,
                                    bodyInput, image, isInternalField == "true", now, uuid)
            case Err(e) =>
              r == Fail(e) && db.messages == old(db.messages) && db.attachments == old(db.attachments)
            case Ok(rows) =>
              r == Pass && db.messages == old(db.messages) + [rows.0] &&
              db.attachments == old(db.attachments) + AsSeq(rows.1)
  {
    ghost var users, cases, participants := db.users, db.cases, db.participants;
    var prepared := PrepareMessage(db, session, caseRef, bodyInput, image, isInternalField, now, uuid);
    if prepared.Err? {
      return Fail(prepared.error);
    }
    var (message, attachment) := prepared.value;
    EffectKeepsMessageRules(db.users, db.cases, db.participants, |db.messages|, session, caseRef, bodyInput,
                            image, isInternalField == "true", now, uuid);
    AppendMessage(db, message, AsSeq(attachment));
    assert db.users == users && db.cases == cases && db.participants == participants;
    r := Pass;
  }
}
