/** The admin-only actions of app/actions/admin.ts that cases.ts does not
    repeat: the branding switch and granting admin rights. */
module AdminActions {
  import opened Results
  import opened Text
  import opened Store

  // ---------------------------------------------------------------------
  // updateBrandingConfig
  // ---------------------------------------------------------------------

  /** The branding table after saving `isActive`: the first row is updated
      if there is one, otherwise a row is inserted. */
  function SetBranding(rows: seq<BrandingConfig>, isActive: bool): (r: seq<BrandingConfig>)
    ensures |r| == if rows == [] then 1 else |rows|
    ensures r[0].isActive == isActive
    ensures forall i :: 1 <= i < |rows| ==> r[i] == rows[i]
  {
    if rows == [] then [BrandingConfig(isActive)] else rows[0 := rows[0].(isActive := isActive)]
  }

  /** Saving twice is saving the last value once: the switch holds exactly
      the latest choice and never adds a second row. */
  lemma SetBrandingLastWins(rows: seq<BrandingConfig>, a: bool, b: bool)
    ensures SetBranding(SetBranding(rows, a), b) == SetBranding(rows, b)
  {
    var once := SetBranding(rows, b);
    var twice := SetBranding(SetBranding(rows, a), b);
    assert |twice| == |once|;
    forall i | 0 <= i < |once| ensures twice[i] == once[i] {
      if i > 0 {
        assert twice[i] == rows[i];
      }
    }
  }

  /** `updateBrandingConfig(formData)`: the switch is on exactly when the
      `is_active` field is the text `"true"`.  Afterwards the table holds
      exactly one row, carrying that value. */
  method UpdateBrandingConfig(db: Database, session: Option<nat>, isActiveField: string)
    returns (r: Outcome<Failure>)
    requires db.Valid()
    modifies db`branding
    ensures db.Valid()
    ensures match RequireAdmin(db.users, session)
            case Err(e) => r == Fail(e) && db.branding == old(db.branding)
            case Ok(_) =>
              r == Pass && db.branding == SetBranding(old(db.branding), isActiveField == "true") &&
              db.branding == [BrandingConfig(isActiveField == "true")]
  {
    var auth := RequireAdmin(db.users, session);
    if auth.Err? {
      return Fail(auth.error);
    }
    var isActive := isActiveField == "true";
    if |db.branding| > 0 {
      db.branding := db.branding[0 := db.branding[0].(isActive := isActive)];
    } else {
      db.branding := db.branding + [BrandingConfig(isActive)];
    }
    r := Pass;
  }

  // ---------------------------------------------------------------------
  // promoteUserToAdmin
  // ---------------------------------------------------------------------

  /** `rawIdentifier.trim().toLowerCase()`, or empty when the field is
      missing or not text. */
  function NormalizeIdentifier(raw: Option<string>): (r: string)
    ensures raw.None? ==> r == []
    ensures raw.Some? ==> r == ToLower(Trim(raw.value)) && (r == [] <==> AllSpace(raw.value))
  {
    if raw.None? then [] else ToLower(Trim(raw.value))
  }

  /** `split_part(lower(email), '@', 1)`: the lower-cased part before the
      first `@`, or the whole address when it has none. */
  function LocalPart(email: string): (r: string)
    ensures '@' !in r
    ensures '@' !in email ==> r == ToLower(email)
    ensures forall k :: 0 <= k < |email| && email[k] == '@' && '@' !in email[..k] ==> r == ToLower(email)[..k]
  {
    LocalPartCases(email);
    Split(ToLower(email), '@')[0]
  }

  /** Lower-casing neither adds nor moves an `@`, so the part before the
      first `@` is found at the same place. */
  lemma LocalPartCases(email: string)
    ensures '@' !in email ==> Split(ToLower(email), '@')[0] == ToLower(email)
    ensures forall k :: 0 <= k < |email| && email[k] == '@' && '@' !in email[..k] ==>
              Split(ToLower(email), '@')[0] == ToLower(email)[..k]
  {
    var low := ToLower(email);
    assert forall i :: 0 <= i < |email| ==> (low[i] == '@' <==> email[i] == '@');
    if '@' !in email {
      assert '@' !in low by {
        forall i | 0 <= i < |low| ensures low[i] != '@' {
          assert email[i] != '@';
        }
      }
      SplitWithoutSeparator(low, '@');
    }
    forall k | 0 <= k < |email| && email[k] == '@' && '@' !in email[..k]
      ensures Split(low, '@')[0] == low[..k]
    {
      assert '@' !in low[..k] by {
        forall i | 0 <= i < k ensures low[..k][i] != '@' {
          assert email[..k][i] == email[i];
        }
      }
      SplitFirstPart(low, '@', k);
    }
  }

  /** The user matches the identifier by full email, by the part before
      `@`, or by full name, all compared in lower case. */
  predicate MatchesIdentifier(u: UserRecord, identifier: string) {
    ToLower(u.email) == identifier || LocalPart(u.email) == identifier || ToLower(u.fullName) == identifier
  }

  /** The first matching user, as `LIMIT 1` returns it. */
  function FindUser(users: seq<UserRecord>, identifier: string): (r: Option<nat>)
    ensures r.None? <==> forall i :: 0 <= i < |users| ==> !MatchesIdentifier(users[i], identifier)
    ensures r.Some? ==>
              r.value < |users| && MatchesIdentifier(users[r.value], identifier) &&
              forall j :: 0 <= j < r.value ==> !MatchesIdentifier(users[j], identifier)
    decreases |users|
  {
    if users == [] then None
    else if MatchesIdentifier(users[0], identifier) then Some(0)
    else
      assert forall i :: 0 <= i < |users| - 1 ==> users[1..][i] == users[i + 1];
      match FindUser(users[1..], identifier)
      case None => None
      case Some(i) => Some(i + 1)
  }

  /** What `promoteUserToAdmin` decides once the caller is an admin, given
      the normalised identifier: why it refuses, in order, or the user it
      promotes. */
  function PromoteTarget(users: seq<UserRecord>, identifier: string): (r: Result<nat, Failure>)
    ensures r == Err(IdentifierRequired) <==> identifier == []
    ensures r == Err(NoMatchingUser) <==> identifier != [] && FindUser(users, identifier).None?
    ensures r.Err? && r.error.AlreadyAdmin? <==>
              identifier != [] && FindUser(users, identifier).Some? &&
              users[FindUser(users, identifier).value].role.Admin?
    ensures r.Err? && r.error.AlreadyAdmin? ==> r.error.email == users[FindUser(users, identifier).value].email
    ensures r.Ok? <==>
              identifier != [] && FindUser(users, identifier).Some? &&
              users[FindUser(users, identifier).value].role.User?
    ensures r.Ok? ==> FindUser(users, identifier) == Some(r.value)
  {
    if identifier == [] then Err(IdentifierRequired)
    else
      var found := FindUser(users, identifier);
      if found.None? then Err(NoMatchingUser)
      else if users[found.value].role.Admin? then Err(AlreadyAdmin(users[found.value].email))
      else Ok(found.value)
  }

  /** What `promoteUserToAdmin` decides: a caller who is not an admin is
      refused first, and the identifier is trimmed and lower-cased before
      it is looked up. */
  function PromoteOutcome(users: seq<UserRecord>, session: Option<nat>, raw: Option<string>)
    : (r: Result<nat, Failure>)
    ensures RequireAdmin(users, session).Err? ==> r == Err(RequireAdmin(users, session).error)
    ensures RequireAdmin(users, session).Ok? ==> r == PromoteTarget(users, NormalizeIdentifier(raw))
  {
    match RequireAdmin(users, session)
    case Err(e) => Err(e)
    case Ok(_) => PromoteTarget(users, NormalizeIdentifier(raw))
  }

  /** The users table after promoting `t`. */
  function Promote(users: seq<UserRecord>, t: nat): (r: seq<UserRecord>)
    requires t < |users|
    ensures |r| == |users| && RolesOnlyRise(users, r)
    ensures r[t].role == Admin
    ensures forall i :: 0 <= i < |users| ==>
              r[i].email == users[i].email && r[i].fullName == users[i].fullName &&
              r[i].passwordHash == users[i].passwordHash
    ensures forall i :: 0 <= i < |users| && i != t ==> r[i] == users[i]
  {
    users[t := users[t].(role := Admin)]
  }

  /** `promoteUserToAdmin(formData)` with its `identifier` field: on success
      the first matching user becomes an admin and their email is returned;
      otherwise no user changes. */
  method PromoteUserToAdmin(db: Database, session: Option<nat>, raw: Option<string>)
    returns (r: Result<string, Failure>)
    requires db.Valid()
    modifies db`users
    ensures db.Valid()
    ensures RolesOnlyRise(old(db.users), db.users)
    ensures match PromoteOutcome(old(db.users), session, raw)
            case Err(e) => r == Err(e) && db.users == old(db.users)
            case Ok(t) => r == Ok(old(db.users)[t].email) && db.users == Promote(old(db.users), t)
  {
    var auth := RequireAdmin(db.users, session);
    if auth.Err? {
      return Err(auth.error);
    }
    var identifier := NormalizeIdentifier(raw);
    if identifier == [] {
      return Err(IdentifierRequired);
    }
    var found := FindUser(db.users, identifier);
    if found.None? {
      return Err(NoMatchingUser);
    }
    var target := found.value;
    if db.users[target].role.Admin? {
      return Err(AlreadyAdmin(db.users[target].email));
    }
    assert PromoteOutcome(db.users, session, raw) == Ok(target);
    RaisedRolesKeepInvariant(db.users, Promote(db.users, target), db.cases, db.accessRequests,
                             db.participants, db.messages, db.attachments, db.reports, db.branding);
    db.users := Promote(db.users, target);
    r := Ok(db.users[target].email);
  }

  /** Two tables whose rows match the identifier alike give the same
      answer. */
  lemma {:induction false} SameMatchesSameFind(a: seq<UserRecord>, b: seq<UserRecord>, identifier: string)
    requires |a| == |b|
    requires forall i :: 0 <= i < |a| ==> (MatchesIdentifier(a[i], identifier) <==> MatchesIdentifier(b[i], identifier))
    ensures FindUser(a, identifier) == FindUser(b, identifier)
    decreases |a|
  {
    if a != [] {
      assert MatchesIdentifier(a[0], identifier) <==> MatchesIdentifier(b[0], identifier);
      forall i | 0 <= i < |a| - 1
        ensures MatchesIdentifier(a[1..][i], identifier) <==> MatchesIdentifier(b[1..][i], identifier)
      {
        assert a[1..][i] == a[i + 1] && b[1..][i] == b[i + 1];
      }
      SameMatchesSameFind(a[1..], b[1..], identifier);
    }
  }

  /** Matching reads only email and name, which a promotion keeps. */
  lemma PromotionKeepsMatches(users: seq<UserRecord>, t: nat, identifier: string)
    requires t < |users|
    ensures FindUser(Promote(users, t), identifier) == FindUser(users, identifier)
  {
    var after := Promote(users, t);
    forall i | 0 <= i < |after|
      ensures MatchesIdentifier(after[i], identifier) <==> MatchesIdentifier(users[i], identifier)
    {
      assert after[i].email == users[i].email && after[i].fullName == users[i].fullName;
    }
    SameMatchesSameFind(after, users, identifier);
  }

  /** Promoting is not repeated: asking again with the same identifier
      finds the same user, now an admin, and refuses with their email. */
  lemma PromoteTwiceRefuses(users: seq<UserRecord>, session: Option<nat>, raw: Option<string>)
    requires PromoteOutcome(users, session, raw).Ok?
    ensures var t := PromoteOutcome(users, session, raw).value;
            PromoteOutcome(Promote(users, t), session, raw) == Err(AlreadyAdmin(users[t].email))
  {
    var t := PromoteOutcome(users, session, raw).value;
    var after := Promote(users, t);
    PromotionKeepsMatches(users, t, NormalizeIdentifier(raw));
    assert RequireAdmin(after, session).Ok?;
  }
}
