# Case portal server actions, modelled in Dafny

This project models the server-side core of a case-management portal. Members of the public look up a case by its public id (`ICE-<year>-<6 digits>`). Signed-in users ask for access to a case, and once an administrator approves they chat with the administrators about it. Users also file incident reports (`REP-<year>-<6 digits>`). Administrators create cases, change case and report status, review access requests, switch the site branding and grant admin rights.

The model has one module per concern:

- `Results`: `Option`, `Result` and `Outcome`.
- `Text`: the JavaScript string operations the actions rely on:
  - `trim`, upper and lower case
  - `Number(...)` on a digit string, and `padStart`
  - `split` and `join`
  - the text order `ORDER BY` sorts by
- `Identifiers`: case ids and report refs, how they are formatted, and how the next one is chosen.
- `RateLimit`: the fixed-window limiter of `lib/rate-limit.ts`. It is a class over a map, and the clock is a parameter.
- `Uploads`: folder cleaning, extension choice and the checks and url of `saveImageToPublic` in `lib/uploads.ts`.
- `Store`: the tables as datatypes, and the `Database` class with one field per table.
  - `Database.Valid()` is the invariant every action keeps.
  - Only a pending request has no reviewer, and reviewers are admins.
  - A user holds at most one request per case, and every approved request's user takes part in its case.
  - Case ids and emails are unique.
  - Every message obeys the messaging rules, and every row refers to existing rows.
  - There is at most one branding row.
- `AccessRequests`: `submitAccessRequest`, and the `requestAccess` copy in `cases.ts`.
- `CaseActions`: lookup, approve, deny, create a case, update a case's status, send a message.
- `ReportActions`: create a report, update a report's status.
- `AdminActions`: the branding switch and granting admin rights.
- `AuthActions`: password hashing, sign-in and registration.

How the model is built:

- Each state-changing action is a method on a `Database`. Its `modifies` clause names only the tables it writes.
- Its postcondition ties the new table contents and the result to a function that states the action's ordered checks. Lemmas state the properties of those functions.
- Row ids are table positions, since the portal never deletes rows.
- A session is the signed-in user's id, or none.
- The clock, the year, the UUID, the random retry suffix and the SHA-256 digest are parameters.

Points where the code does less than its forms suggest; the model follows the code:

- Status fields hold any text. The case form offers four statuses (`components/admin/case-form.tsx:82-85`), but `createCase` and `updateCaseStatus` store whatever text they are given.
- Approval is a select, then an update, then an insert (`app/actions/cases.ts:92-113`), with no transaction around them. It is modelled as one sequential step.
- Any signed-in user, administrators included, may ask for access. Approving then adds that user as a participant.

## Model

| member | source | states |
|---|---|---|
| Store.RequireAuth | lib/auth.ts:29-35 | no session gives `Unauthorized`; otherwise the signed-in user |
| Store.RequireAdmin | lib/auth.ts:37-43 | `Unauthorized` without a session, `Forbidden` for a non-admin, otherwise the admin's id |
| Store.StatusText | app/actions/access-requests.ts:30 | the texts `pending`, `approved` and `denied`, each exactly for its own status |
| Store.OrNull | app/actions/access-requests.ts:42 | an empty value is stored as NULL, any other value as itself |
| Store.FindCase | app/actions/access-requests.ts:19-22 | the first case whose id equals the text exactly, or none iff no case has it |
| Store.FindRequest | app/actions/access-requests.ts:26-29 | the first request of this user for this case, with no earlier match; none iff there is none |
| Store.MoreParticipantsKeepInvariant | app/actions/cases.ts:109-114 | adding participant pairs never breaks a request or message rule |
| Store.MoreCasesKeepInvariant | app/actions/cases.ts:184-188 | adding cases never breaks a rule that only bounds case references |
| Store.NewCaseKeepsInvariant | app/actions/cases.ts:184-188 | a case with a fresh id, created by an existing user, keeps the invariant |
| Store.NewMessageKeepsInvariant | app/actions/cases.ts:285-296 | a message that obeys the rules, with attachments owned by it, keeps the invariant |
| Store.NewUserKeepsInvariant | app/actions/auth.ts:72-83 | a user with an email nobody has keeps the invariant |
| Store.RaisedRolesKeepInvariant | app/actions/admin.ts:126 | raising roles, with emails kept, keeps the invariant (reviewers stay admins) |
| Store.NewReportKeepsInvariant | app/actions/reports.ts:39-42 | a report by an existing user about an existing case (if any) keeps the invariant |
| Store.RequestsEvolveTransitive | app/actions/cases.ts:89-137 | "only pending requests change" composes over a run of actions |
| AccessRequests.RequestAccessCheck | app/actions/access-requests.ts:8-38 | the checks in order: session, non-empty id, exact case match, no prior request in any status (its status text is reported), not a participant; each error iff its condition and the earlier checks pass; success iff all pass, with the signed-in user and the found case |
| AccessRequests.NewRequest | app/actions/access-requests.ts:40-43 | the inserted row is for this case and user, pending, with no reviewer and no review time, and carries the note, or NULL when it is empty |
| AccessRequests.NewRequestKeepsInvariant | app/actions/access-requests.ts:40-43 | a pending request for a pair without one keeps the invariant and touches no old row |
| AccessRequests.RequestAccess | app/actions/access-requests.ts:8-49 | on success exactly one pending request with the note is appended; on any error the table is unchanged (also `requestAccess` in app/actions/cases.ts:48-87, with an empty note) |
| AccessRequests.ExistingRequestBlocks | app/actions/cases.ts:59-67 | any existing request of the user for the case, whatever its status, is refused with that status |
| CaseActions.LookupKey | app/actions/cases.ts:11-15 | the key is the input trimmed and upper-cased; it is empty iff the input is missing or blank |
| CaseActions.FindCaseByUpperId | app/actions/cases.ts:23-28 | the first case whose upper-cased id equals the key, or none iff no id matches |
| CaseActions.LookupAnswerFor | app/actions/cases.ts:30-45 | not found iff no id matches; otherwise the first matching case's id, status, location tag and public summary, with `canChat` iff signed in |
| CaseActions.PublicCaseLookup | app/actions/cases.ts:10-46 | an empty key is refused before the limiter; otherwise one limiter step on `lookup:<key>` (10 per minute), then the answer |
| CaseActions.LookupIgnoresInternalSummary | app/actions/cases.ts:23-45 | changing a case's internal summary changes no lookup answer |
| CaseActions.ApproveCheck | app/actions/cases.ts:89-101 | approval goes ahead iff an admin approves an existing pending request; otherwise `RequestNotFoundOrProcessed` |
| CaseActions.Reviewed | app/actions/cases.ts:105-108 | a reviewed request keeps its case, user and note, and carries the decision, reviewer and time |
| CaseActions.ReviewKeepsInvariant | app/actions/cases.ts:105-114 | deciding a pending request keeps the request invariant and changes only a pending row |
| CaseActions.ApproveAccessRequest | app/actions/cases.ts:89-121 | on success the request becomes approved by the admin and the pair joins the participant set (idempotent); otherwise nothing changes (same code in app/actions/admin.ts:8-37) |
| CaseActions.ApproveOnlyOnce | app/actions/cases.ts:93-108 | a second approval of the same request is refused |
| CaseActions.DenyAccessRequest | app/actions/cases.ts:123-137 | for an admin always succeeds; only a pending request becomes denied, anything else leaves the table unchanged (same code in app/actions/admin.ts:39-52) |
| CaseActions.CaseIdToInsert | app/actions/cases.ts:169-201 | the kept id is fresh and has the year's prefix; it is the sequential id or the one random retry; none iff both are taken |
| CaseActions.NoRetryWhileSequential | app/actions/cases.ts:169-191 | while the year's ids are sequential and below one million, the sequential id is free and no retry happens |
| CaseActions.PhotoUpload | app/actions/cases.ts:159-167 | no photo gives no url and no upload; otherwise the upload's url, or its error as `UploadFailed` |
| CaseActions.NewCaseRow | app/actions/cases.ts:146-188 | every form field lands in its column; an empty status becomes `"Open"`; empty optional fields become NULL; the row has the given id, photo url and creator, and no update time |
| CaseActions.CreateCaseOutcome | app/actions/cases.ts:139-201 | admin, then title, category and person name, then the photo upload, then a free id; each error iff its condition and the earlier checks pass; success iff all pass, with the new row built from the form, the upload's url and the id the id rule keeps |
| CaseActions.CreateCase | app/actions/cases.ts:139-208 | on success exactly one case row with a fresh id is appended and its id returned; otherwise nothing changes (the read-only helper `PrepareCase` computes the outcome) |
| CaseActions.UpdateCaseStatus | app/actions/cases.ts:210-220 | for an admin, any text becomes the status and only the status and update time change; an unknown case changes nothing (same code in app/actions/admin.ts:54-64) |
| CaseActions.SendMessageCheck | app/actions/cases.ts:223-269 | the checks in order: session, text or image, case exists, closed case only for admins, internal notes only for admins, admin needs a participant, a user must be one; each error iff its condition and the earlier checks pass; success iff all pass |
| CaseActions.MessageBody | app/actions/cases.ts:283 | the text when there is one; `"[Image attachment]"` exactly when it is empty; never empty |
| CaseActions.SendMessageEffect | app/actions/cases.ts:226-296 | a failed check writes nothing; without an image, one message with the sender's role and no attachment; with one, the upload to `chat/<case id>`, whose error becomes `UploadFailed` and whose url, file name and type become the attachment |
| CaseActions.EffectKeepsMessageRules | app/actions/cases.ts:238-269 | every message the checks let through obeys the message rules of the invariant |
| CaseActions.SendMessage | app/actions/cases.ts:222-305 | the tables grow by exactly the effect's message and attachment, or not at all, and the invariant holds (the read-only helper `PrepareMessage` computes the effect) |
| ReportActions.RelatedCase | app/actions/reports.ts:33-37 | an empty or unknown related case id gives none, not an error; a known one gives that case |
| ReportActions.CreateReportOutcome | app/actions/reports.ts:8-42 | session, then type and description, then consent, each error iff its condition and the earlier checks pass; success iff all pass; the row has the next ref, the user, status `"received"` |
| ReportActions.CreateReport | app/actions/reports.ts:8-46 | on success one report is appended and its ref returned; otherwise nothing changes |
| ReportActions.CreatedReportRefIsFresh | app/actions/reports.ts:27-31 | while the year's refs are numbered up to its count, the new ref is unused and the numbering still holds afterwards |
| ReportActions.UpdateReportStatus | app/actions/reports.ts:48-57 | for an admin, any text becomes the report's status; nothing else changes (same code in app/actions/admin.ts:66-75) |
| AdminActions.SetBranding | app/actions/admin.ts:83-89 | the first row gets the value, or a row is inserted when there is none; never a second row |
| AdminActions.SetBrandingLastWins | app/actions/admin.ts:83-89 | saving twice equals saving the last value once |
| AdminActions.UpdateBrandingConfig | app/actions/admin.ts:77-94 | for an admin the table ends with exactly one row, active iff the field is `"true"` |
| AdminActions.NormalizeIdentifier | app/actions/admin.ts:100-101 | the field trimmed and lower-cased; empty iff missing or blank |
| AdminActions.LocalPart | app/actions/admin.ts:112 | the lower-cased address up to its first `@`, the whole address when there is none |
| AdminActions.LocalPartCases | app/actions/admin.ts:112 | with an `@`, the first field of the split is the text before the first `@`; without one, the whole text |
| AdminActions.FindUser | app/actions/admin.ts:107-115 | the first user matching by email, local part or full name, or none iff no user matches |
| AdminActions.PromoteTarget | app/actions/admin.ts:103-124 | refused iff the identifier is empty; "no match" iff nothing matches; "already an admin" iff the first match is an admin, naming its email; otherwise that first match, a user, is the one promoted |
| AdminActions.PromoteOutcome | app/actions/admin.ts:96-124 | a non-admin caller is refused first; an admin's request is decided on the trimmed, lower-cased identifier |
| AdminActions.Promote | app/actions/admin.ts:126 | only the target's role changes, to admin; no role falls |
| AdminActions.PromoteUserToAdmin | app/actions/admin.ts:96-135 | on success the matched user becomes an admin and the email is returned; otherwise no user changes; roles only rise |
| AdminActions.PromotionKeepsMatches | app/actions/admin.ts:107-115 | a promotion does not change which user an identifier finds |
| AdminActions.PromoteTwiceRefuses | app/actions/admin.ts:117-126 | promoting again with the same identifier is refused as already an admin |
| AuthActions.VerifyMatchesHash | app/actions/auth.ts:9-16 | a hash accepts its own password; with an injective digest, only that one |
| AuthActions.FindUserByEmail | app/actions/auth.ts:32 | the user with exactly that email, or none iff none has it |
| AuthActions.Credentials | app/actions/auth.ts:32-50 | success iff the email's user has the password's hash; every failure is the same `InvalidCredentials`; admins land on `/admin`, users on `/dashboard` |
| AuthActions.Login | app/actions/auth.ts:18-50 | missing fields are refused and leave the limiter untouched; every other attempt takes one limiter step on `login:<email>` (5 per minute), then the credential check |
| AuthActions.LoginWindowBound | app/actions/auth.ts:26-29 | within one minute of the attempt that opens an email's window, at most five attempts pass the limiter |
| AuthActions.RegisterOutcome | app/actions/auth.ts:52-83 | fields, then length at least 6, then confirmation, then a free email, each error iff its condition and the earlier checks pass; the row has role `user` and the password's hash |
| AuthActions.RegisterRedirect | app/actions/auth.ts:87-90 | the dashboard, or, when a case id was given, the dashboard with `?caseId=` and the encoded id |
| AuthActions.Register | app/actions/auth.ts:52-91 | on success exactly one user is appended and signed in; otherwise no user changes |
| AuthActions.RegisterThenLogin | app/actions/auth.ts:72-83 | a fresh registration can sign in with the same email and password, as the new user, on the dashboard |
| RateLimit.Step | lib/rate-limit.ts:3-22 | a new or expired window (strictly after its end) restarts at 1 with end `now + windowMs`; inside it, success iff count < limit, the count rises only on success, and remaining is `limit - count` on success or 0 on failure; other keys unchanged |
| RateLimit.RateLimiter.constructor | lib/rate-limit.ts:1 | the map starts empty |
| RateLimit.RateLimiter.Check | lib/rate-limit.ts:3-22 | the map and verdict after a call are exactly one step |
| RateLimit.Replay | lib/rate-limit.ts:3-22 | a run of calls succeeds at most once per call |
| RateLimit.WithinWindowBound | lib/rate-limit.ts:16-21 | inside a window the key gets at most `limit - count` more successes and the window's end does not move |
| RateLimit.WindowBound | lib/rate-limit.ts:11-21 | a window grants at most `max(limit, 1)` successes |
| RateLimit.OtherKeysUntouched | lib/rate-limit.ts:9-21 | calls for one key never change another key's entry |
| Uploads.StripPart | lib/uploads.ts:16 | keeps only `[A-Za-z0-9_-]`: a clean part is kept, a part with no such character is emptied |
| Uploads.StripPartAppend | lib/uploads.ts:16 | cleaning a concatenation concatenates the cleaned pieces, so characters are filtered one by one, in order |
| Uploads.StripParts | lib/uploads.ts:16 | cleans each part in place |
| Uploads.DropEmpty | lib/uploads.ts:17 | every part kept is non-empty and comes from the input; input without empty parts is kept whole |
| Uploads.DropEmptyAppend | lib/uploads.ts:17 | filtering a concatenation concatenates the filtered pieces: nothing non-empty is lost and the order is kept |
| Uploads.FolderSegments | lib/uploads.ts:13-18 | every segment kept is non-empty and clean |
| Uploads.FolderSegmentsOfPart | lib/uploads.ts:15-17 | a text without `/` yields its cleaned self, or nothing when it cleans to empty |
| Uploads.FolderSegmentsAtSlash | lib/uploads.ts:15-17 | the segments of `a/b` are those of `a` followed by those of `b` |
| Uploads.NormalizeFolder | lib/uploads.ts:13-19 | holds only clean characters and `/`; empty iff no segment survives; otherwise splits at `/` into exactly the surviving segments |
| Uploads.NormalizedFolderShape | lib/uploads.ts:13-19 | no leading, trailing or doubled `/`, and no `.` or `..` segment |
| Uploads.NormalizeFolderIdempotent | lib/uploads.ts:13-19 | cleaning a cleaned folder changes nothing |
| Uploads.NormalizeSafeFolder | lib/uploads.ts:13-19 | a folder that is already clean segments joined by single `/` is kept as it is |
| Uploads.AlnumSuffixLength | lib/uploads.ts:27 | the longest letters-and-digits suffix of the name |
| Uploads.TrailingExtension | lib/uploads.ts:26-28 | a `.` then letters and digits up to the end of the name, present iff the name has one |
| Uploads.ExtensionAtUnique | lib/uploads.ts:27 | a name has at most one such trailing extension |
| Uploads.ExtensionFromFile | lib/uploads.ts:5-29 | always starts with `.`; one of the five image types gives its mapped extension |
| Uploads.ExtensionFromName | lib/uploads.ts:26-28 | for other types, the lower-cased trailing extension of the name |
| Uploads.ExtensionFallback | lib/uploads.ts:28 | with no trailing extension, `.jpg` |
| Uploads.ExtensionHasNoSlash | lib/uploads.ts:21-29 | an extension never contains `/` |
| Uploads.StoredFileName | lib/uploads.ts:52 | the timestamp in decimal, a `-`, then the UUID and the extension |
| Uploads.StoredFileNameHasNoSlash | lib/uploads.ts:52 | the stored name has no `/` when the UUID has none |
| Uploads.SaveImageToPublic | lib/uploads.ts:31-67 | no file or empty, then not an image, then too large, then an empty folder: each error iff its condition and the earlier checks pass; success iff all pass; url is `/uploads/<folder>/<name>` |
| Uploads.UrlSegments | lib/uploads.ts:53-62 | the url splits into `""`, `uploads`, the folder's segments and the stored name |
| Uploads.UploadUrlStaysInUploads | lib/uploads.ts:46-62 | every url starts `/uploads/` and has no `.`, `..` or empty segment: no path traversal |
| Identifiers.FormatId | app/actions/cases.ts:180 | an id starts with its `<tag>-<year>-` prefix |
| Identifiers.FormatIdLength | app/actions/cases.ts:180 | below one million the sequence takes exactly six characters |
| Identifiers.FormatIdFields | app/actions/cases.ts:178-180 | an id splits at `-` into tag, year and padded sequence |
| Identifiers.NextSequence | app/actions/cases.ts:177-179 | 1 with no id, an empty id, no third `-` field or one that is not a number; otherwise the number in the third field plus one |
| Identifiers.NextSequenceAfter | app/actions/cases.ts:177-180 | the sequence after a generated id is one more than its own |
| Identifiers.FormatIdInjective | app/actions/cases.ts:180 | different years or sequences give different ids |
| Identifiers.CaseIdOrder | app/actions/cases.ts:170-176 | below one million, the text order of ids is the order of their sequences |
| Identifiers.LatestWithPrefix | app/actions/cases.ts:170-177 | the greatest id with the year's prefix in text order, or none iff no id has it |
| Identifiers.CountWithPrefix | app/actions/reports.ts:29 | exactly the number of refs that start with the prefix |
| Identifiers.NextCaseIdIsFresh | app/actions/cases.ts:169-191 | while the year's ids are generated ones below one million, the next id is unused |
| Identifiers.NextReportRefIsFresh | app/actions/reports.ts:28-31 | while the year's refs are numbered up to the count, the next ref is unused |
| Identifiers.RefAboveCountFresh | app/actions/reports.ts:29-31 | a ref numbered above every ref of the year is not among them |
| Identifiers.NextReportRefKeepsNumbering | app/actions/reports.ts:28-31 | storing the next ref raises the count by one and keeps the numbering |
| Text.Trim | app/actions/cases.ts:11 | a slice of the text with only white space around it; empty iff the text is blank |
| Text.TrimWindow | app/actions/cases.ts:11 | trimming the start and then the end leaves a slice with only white space on either side |
| Text.TrimEmptyOnlyIfBlank | app/actions/cases.ts:11-13 | trimming gives the empty text exactly for blank input |
| Text.ToUpper | app/actions/cases.ts:11 | same length; each ASCII lower-case letter becomes its upper-case letter, every other character is kept |
| Text.ToLower | app/actions/admin.ts:101 | same length; each ASCII upper-case letter becomes its lower-case letter, every other character is kept |
| Text.DecimalString | app/actions/cases.ts:180 | non-empty, digits only, no leading zero |
| Text.DecimalStringRoundTrip | app/actions/cases.ts:178-180 | reading back a written number gives the number |
| Text.DecimalStringInjective | app/actions/cases.ts:180 | different numbers are written differently |
| Text.PadStart | app/actions/cases.ts:180 | pads to the width on the left with the fill and keeps the text at the end |
| Text.ParseNumber | app/actions/cases.ts:178 | digits give their value, blank gives 0 |
| Text.PaddedDecimalRoundTrip | app/actions/cases.ts:178-180 | reading a zero-padded number gives the number |
| Text.Split | app/actions/cases.ts:178 | at least one field, none containing the separator |
| Text.SplitJoin | lib/uploads.ts:15-18 | splitting a join of separator-free parts gives the parts back |
| Text.JoinSplit | lib/uploads.ts:15-18 | joining a split gives the text back |
| Text.SplitAtSeparator | lib/uploads.ts:15 | splitting `a`, a separator, `b` gives the fields of `a` followed by those of `b` |
| Text.LexLessIrreflexive | app/actions/cases.ts:174 | no id sorts before itself |
| Text.LexLessTransitive | app/actions/cases.ts:174 | the text order is transitive |
| Text.LexLessTotal | app/actions/cases.ts:174 | any two distinct ids are ordered |
| Text.LexLessCommonPrefix | app/actions/cases.ts:174 | a shared prefix does not change the order |
| Text.LexLessDigits | app/actions/cases.ts:174 | on digit strings of one length, the text order is the numeric order |

## Left out

- Audit logging (`logAudit`), `revalidatePath`, `redirect` as control flow, session cookies and session rows: framework effects. A signed-in user is represented by the returned user id, and a redirect by the returned path.
- File-system writes of `saveImageToPublic` (`mkdir`, `writeFile`) and the absolute path: I/O. The url and the checks are modelled.
- Concurrency: approval's select-then-update, races between id generation and the unique key, and the limiter across processes. The model is sequential.
- The clock, the year, `crypto.randomUUID`, `Math.random` and SHA-256 are parameters. `Math.floor(Math.random() * 1_000_000)` is the `randomSuffix < 1000000` precondition of `CaseActions.CreateCase`.
- Identifiers.NextCaseIdIsFresh: covers only years whose ids are all generated and below one million. Past 999999 the text order of ids and the numeric order of their sequences part ways, and the model claims nothing there. Uniqueness after the random retry is not claimed either: `CaseIdToInsert` returns none when the retry id is taken.
- `createCase` database errors other than the unique-key error (code 23505) are rethrown by the code and are not modelled. A collision on the retry is the `DuplicateCaseId` failure.
- Text.ParseNumber: decimal digits and blank text only. Signs, decimals, exponents, hex and other `Number(...)` forms become NaN here; generated ids never hold them.
- Text.ToUpper, Text.ToLower: ASCII letters only. Unicode case mapping is not modelled.
- AuthActions.RegisterOutcome: the password length is counted in characters, where `password.length` counts UTF-16 code units. A password of three characters outside the Basic Multilingual Plane (length 6 in the code) is refused here as too short.
- Text.LexLess: code-point order stands in for the database collation of `ORDER BY case_id`. The model leaves out UTF-16 lengths and the database's `lower(...)` and `upper(...)` beyond ASCII.
- `LIMIT 1` without `ORDER BY` is taken as the first matching row in insertion order (`Store.FindCase`, `Store.FindRequest`, `AdminActions.FindUser`, `AuthActions.FindUserByEmail`).
- Uploads.ExtensionFromFile: the map lookup does not model inherited object keys (such as a MIME type of `constructor`). `path.posix.join` is modelled as joining clean segments with `/`; the dot-segment resolution it would do cannot arise on cleaned segments.
- A form value that is missing (`null`) is read as the empty text. Both take the same branch in every check modelled.
- A case, request or report id that is not a valid UUID makes the database throw in `sendMessage`, `updateCaseStatus`, `approveAccessRequest`, `denyAccessRequest` and `updateReportStatus`. Rows are addressed here by table position, so that error is not modelled.
- AccessRequests.RequestAccess, for the `requestAccess` copy in `app/actions/cases.ts:48-87`: that copy has no empty-id check, stores no note, writes no audit entry and words its errors differently. The empty-id check makes no difference to the outcome there, because no case has the empty id, so it reads as this method with an empty note.
- `updatedAt` of a new case is left unset. The database default is not modelled.
- `encodeURIComponent` in the registration redirect is a parameter.
- Auto-join of a viewer as participant, message listing and internal-note filtering belong to pages, not to these actions.
