/** Requesting access to a case: `submitAccessRequest` in
    app/actions/access-requests.ts, which `requestAccess` in
    app/actions/cases.ts repeats without the empty-id check and the note. */
module AccessRequests {
  import opened Results
  import opened Store

  /** The checks of `submitAccessRequest`, in order: a session, a non-empty
      case id, a case with exactly that id, no request of this user for the
      case in any status, and not yet a participant.  On success, the
      (user, case) pair to request. */
  function RequestAccessCheck(users: seq<UserRecord>, cases: seq<CaseRecord>, requests: seq<AccessRequest>,
                              participants: set<(nat, nat)>, session: Option<nat>, caseIdText: string)
    : (r: Result<(nat, nat), Failure>)
    ensures r == Err(Unauthorized) <==> !SignedIn(users, session)
    ensures r == Err(CaseIdRequired) <==> SignedIn(users, session) && caseIdText == []
    ensures r == Err(CaseNotFound) <==>
              SignedIn(users, session) && caseIdText != [] &&
              forall i :: 0 <= i < |cases| ==> cases[i].caseId != caseIdText
    ensures r.Err? && r.error.AlreadyRequested? <==>
              SignedIn(users, session) && caseIdText != [] && FindCase(cases, caseIdText).Some? &&
              FindRequest(requests, FindCase(cases, caseIdText).value, session.value).Some?
    ensures r.Err? && r.error.AlreadyRequested? ==>
              r.error.status ==
                StatusText(requests[FindRequest(requests, FindCase(cases, caseIdText).value, session.value).value].status)
    ensures r == Err(AlreadyParticipant) <==>
              SignedIn(users, session) && caseIdText != [] && FindCase(cases, caseIdText).Some? &&
              FindRequest(requests, FindCase(cases, caseIdText).value, session.value).None? &&
              (FindCase(cases, caseIdText).value, session.value) in participants
    ensures r.Ok? <==>
              SignedIn(users, session) && caseIdText != [] && FindCase(cases, caseIdText).Some? &&
              FindRequest(requests, FindCase(cases, caseIdText).value, session.value).None? &&
              (FindCase(cases, caseIdText).value, session.value) !in participants
    ensures r.Ok? ==>
              r.value.0 == session.value &&
              r.value.1 < |cases| && cases[r.value.1].caseId == caseIdText &&
              (forall i :: 0 <= i < |requests| ==>
                 !(requests[i].caseRef == r.value.1 && requests[i].userRef == r.value.0)) &&
              (r.value.1, r.value.0) !in participants
  {
    match RequireAuth(users, session)
    case Err(e) => Err(e)
    case Ok(u) =>
      if caseIdText == [] then Err(CaseIdRequired)
      else match FindCase(cases, caseIdText)
        case None => Err(CaseNotFound)
        case Some(c) =>
          match FindRequest(requests, c, u)
          case Some(i) => Err(AlreadyRequested(StatusText(requests[i].status)))
          case None =>
            if (c, u) in participants then Err(AlreadyParticipant) else Ok((u, c))
  }

  /** The request row a successful call inserts. */
  function NewRequest(caseRef: nat, userRef: nat, note: string): (r: AccessRequest)
    ensures r.caseRef == caseRef && r.userRef == userRef
    ensures r.status == Pending && r.reviewedBy.None? && r.reviewedAt.None?
    ensures r.note.None? <==> note == []
    ensures r.note.Some? ==> r.note.value == note
  {
    AccessRequest(caseRef, userRef, Pending, OrNull(note), None, None)
  }

  /** A fresh pending request for a pair that has none keeps the request
      invariant, and old requests are untouched. */
  lemma NewRequestKeepsInvariant(users: seq<UserRecord>, caseCount: nat, requests: seq<AccessRequest>,
                                 participants: set<(nat, nat)>, c: nat, u: nat, note: string)
    requires RequestsOk(users, caseCount, requests, participants)
    requires c < caseCount && u < |users|
    requires forall i :: 0 <= i < |requests| ==> !(requests[i].caseRef == c && requests[i].userRef == u)
    ensures RequestsOk(users, caseCount, requests + [NewRequest(c, u, note)], participants)
    ensures RequestsEvolve(requests, requests + [NewRequest(c, u, note)])
  {
    var after := requests + [NewRequest(c, u, note)];
    assert forall i :: 0 <= i < |requests| ==> after[i] == requests[i];
  }

  /** `submitAccessRequest(formData)` with `case_id` and `note` (an absent
      field reads as empty).  Exactly one pending request is added on
      success; on any failure the table is unchanged. */
  method RequestAccess(db: Database, session: Option<nat>, caseIdText: string, note: string)
    returns (r: Outcome<Failure>)
    requires db.Valid()
    modifies db`accessRequests
    ensures db.Valid()
    ensures RequestsEvolve(old(db.accessRequests), db.accessRequests)
    ensures match RequestAccessCheck(db.users, db.cases, old(db.accessRequests), db.participants,
                                     session, caseIdText)
            case Err(e) => r == Fail(e) && db.accessRequests == old(db.accessRequests)
            case Ok(pair) =>
              r == Pass && db.accessRequests == old(db.accessRequests) + [NewRequest(pair.1, pair.0, note)]
  {
    if !SignedIn(db.users, session) {
      return Fail(Unauthorized);
    }
    var user := session.value;
    if caseIdText == [] {
      return Fail(CaseIdRequired);
    }
    var found := FindCase(db.cases, caseIdText);
    if found.None? {
      return Fail(CaseNotFound);
    }
    var caseRef := found.value;
    var existing := FindRequest(db.accessRequests, caseRef, user);
    if existing.Some? {
      return Fail(AlreadyRequested(StatusText(db.accessRequests[existing.value].status)));
    }
    if (caseRef, user) in db.participants {
      return Fail(AlreadyParticipant);
    }
    NewRequestKeepsInvariant(db.users, |db.cases|, db.accessRequests, db.participants, caseRef, user, note);
    db.accessRequests := db.accessRequests + [NewRequest(caseRef, user, note)];
    r := Pass;
  }

  /** An existing request for the pair, whatever its status, blocks a new
      one and names that status. */
  lemma ExistingRequestBlocks(users: seq<UserRecord>, cases: seq<CaseRecord>, requests: seq<AccessRequest>,
                              participants: set<(nat, nat)>, session: Option<nat>, caseIdText: string,
                              i: nat)
    requires RequestsOk(users, |cases|, requests, participants)
    requires SignedIn(users, session) && caseIdText != []
    requires FindCase(cases, caseIdText).Some?
    requires i < |requests| && requests[i].caseRef == FindCase(cases, caseIdText).value
    requires requests[i].userRef == session.value
    ensures RequestAccessCheck(users, cases, requests, participants, session, caseIdText)
         == Err(AlreadyRequested(StatusText(requests[i].status)))
  {
    var c := FindCase(cases, caseIdText).value;
    var j := FindRequest(requests, c, session.value).value;
    assert OneRequestPerPair(requests);
    assert j == i;
  }
}
