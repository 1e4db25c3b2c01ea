# Complaint management: a verified model of its request handlers

The application is a small web service for filing and tracking complaints.
Users register with a username, an email and a password, sign in, and file
complaints (a title and a description). They can then list, edit and delete
their own complaints and see a dashboard of their counts. An administrator
sees every complaint and moves each one from Pending to In Progress or to
Resolved, with an optional note.

The model covers the three core files: the schema, the form validators and
the request handlers.

- `models.dfy` (module `Models`) holds the two tables as datatypes: `User` and
  `Complaint`.
  - The `status` column is a three-valued `Status`, with the exact texts the
    handlers write.
  - The password column holds a `PasswordRecord`: the salt and the digest.
  - The module also records the column widths.
- `forms.dfy` (module `Forms`) holds the validators of RegisterForm, LoginForm
  and ComplaintForm.
  - `DataRequired` is modelled as "not empty once stripped of whitespace",
    using the characters Python's `str.isspace` accepts.
  - `Length(min, max)` is modelled as written.
- `store.dfy` (module `Store`) models the database as one value.
  - The database is a `Db`: both tables as maps keyed by primary key, plus the
    next key of each table.
  - The schema's constraints form the invariant `Valid`: unique username and
    email, a `user_id` that names a stored user, and titles and usernames that
    fit their columns.
  - It also holds the table scans the queries are built from: key order,
    filtering by owner, `ORDER BY created_at DESC`, and counting by status.
- `handlers.dfy` (module `Handlers`) models each route as a function from the
  store before the request to a `Step`.
  - A `Step` is the store after the request plus the answer: `Ok` or an
    `Error`.
  - The checks run in the order the route makes them. The admin routes check
    the role before looking the row up; the owner routes look the row up
    first.
  - A refused request leaves the store unchanged.
  - These functions are the specification of the app.
- `app.dfy` (module `Server`) has the class `App`.
  - Its fields are the two tables and the next keys.
  - Its methods run each state-changing route step by step, updating the
    fields in place.
  - Each method is proved to have exactly the effect of the matching step
    function and to keep `Valid`.

Things the model takes as parameters:

- The session is an `Option<nat>` holding the signed-in user's id.
- The email-syntax validator is a predicate `isEmail`.
- The password hasher is a function of a salt and a password (`Hasher`), and
  each registration's salt is a parameter.
- The clock reading (`now`) is a parameter.

## Model

| member | source | states |
|---|---|---|
| Models.ParseStatus | models.py:18 | reading a status text back gives the status whose text it is; no text other than the three status texts is a status |
| Models.StatusTextRoundTrip | models.py:18 | every status's text reads back as that status and fits the 50-character column |
| Forms.DataRequiredIffVisible | forms.py:8 | DataRequired accepts a text exactly when it contains a non-whitespace character |
| Forms.RegisterFormMeaning | forms.py:5-17 | registration validates iff the username has 3 to 100 characters, one of them visible; the email is syntactically valid and has a visible character; and the password has at least 6 characters, one visible |
| Forms.LoginFormMeaning | forms.py:20-28 | login validates iff the email is syntactically valid with a visible character and the password has a visible character; there is no length bound |
| Forms.LoginHasNoPasswordMinimum | forms.py:25-28 | a one-character password passes the login form and fails the registration form for every username |
| Forms.ComplaintFormMeaning | forms.py:31-39 | a complaint form validates iff the title has 5 to 200 characters and the description at least 10, each with a visible character |
| Forms.FormsFitColumns | forms.py:5-35 | a title the form accepts fits the 200-character `title` column, and a username the form accepts fits the 100-character `username` column |
| Store.EmptyDbValid | models.py:6-23 | the empty store satisfies the schema's constraints |
| Store.CurrentUser | app.py:25-27 | in a store meeting the constraints, the user a session stands for is a stored user whose primary key is the session's id; when there is none, the session is anonymous or no stored user has that id |
| Store.SortedKeys | app.py:64 | a scan by primary key visits every key of the table once, in ascending order |
| Store.OwnedBy | app.py:88 | filtering by `user_id` keeps exactly that user's rows; the result is a sub-multiset of the input |
| Store.InsertByCreated | app.py:129 | inserting a row into a newest-first list keeps it newest first and adds exactly that row |
| Store.SortNewestFirst | app.py:129 | `ORDER BY created_at DESC` yields a permutation of its input, newest first |
| Store.CountsPartition | app.py:90-93 | the Pending, In Progress and Resolved counts add up to the number of rows |
| Store.CountOwned | app.py:88-93 | counting among the rows filtered by owner equals counting the table with an owner selection, and the filtered list's length is that owner's count |
| Store.CountTable | app.py:145-148 | counting the rows of a table scan equals counting the table's keys under the same selection |
| Handlers.Register | app.py:36-56 | an invalid form gives Invalid, a taken email gives EmailTaken, and otherwise a taken username gives UniqueViolation. Each error leaves the store unchanged. It succeeds iff the form is valid and neither email nor username is in use, and the new id is then a stored user and the complaints are unchanged |
| Handlers.RegisterKeepsValid | app.py:44-51 | registration keeps the schema's constraints: fresh key, unique username and email, username within its column, foreign keys still satisfied |
| Handlers.RegisterAddsOneUser | app.py:44-51 | a successful registration adds exactly one user under a fresh key, keeping all others. The user count grows by one. The new row holds the submitted username and email and the salted digest of the password, and is not an admin |
| Handlers.FirstWithEmail | app.py:64 | the lookup finds a key in the scan whose user has the email, or reports that no user in the scan has it |
| Handlers.Login | app.py:60-75 | an invalid form gives Invalid; with a valid form, an unknown email and a wrong password both give BadCredentials; no other error occurs. A success returns a stored user with that email whose stored digest the password verifies |
| Handlers.LoginSucceedsIff | app.py:63-66 | with unique emails, login succeeds exactly when the form is valid and the password verifies against the digest of the user holding the email; the user signed in is that user |
| Handlers.RegisterThenLogin | app.py:36-75 | after a successful registration, logging in with the same email and password signs in as the new user, who is not an admin |
| Handlers.DuplicateUsernameReachesTheStore | app.py:40-51 | a second registration with a taken username and an unused email gets past the application's email check, is refused with UniqueViolation, and leaves the store unchanged |
| Handlers.Summarize | app.py:90-93 | the total is the number of rows; the Pending, In Progress and Resolved counts are the numbers of positions holding a row in that status; the three add up to the total |
| Handlers.MyComplaints | app.py:124-131 | the list is refused with Unauthenticated exactly when no user is signed in. Otherwise it is newest first, holds exactly the stored complaints whose owner is the signed-in user, and its length is the number of those complaints, so none is listed twice |
| Handlers.AllComplaintsMembers | app.py:143 | the rows of the table scan are exactly the stored complaints |
| Handlers.SummarizeOwned | app.py:88-93 | counting the signed-in user's rows counts their complaints in the table, in all and by status |
| Handlers.SummarizeAll | app.py:145-148 | counting the whole table scan counts the table; the total is the number of complaints |
| Handlers.Dashboard | app.py:85-101 | the dashboard is refused exactly when no user is signed in. Its counts are the table's counts of the user's complaints, the status counts add up to the total, and the total equals the length of the user's complaint list |
| Handlers.AdminDashboard | app.py:134-149 | an anonymous session gives Unauthenticated and a non-admin gives Forbidden; the view is shown iff the user is an admin. It lists every stored complaint newest first, counts every user, and counts the table by status. The total equals both the number of complaints and the length of the list |
| Handlers.NewComplaint | app.py:104-121 | an anonymous session gives Unauthenticated and an invalid form gives Invalid, each leaving the store unchanged. It succeeds iff a user is signed in and the form validates; the users are then unchanged and the new id is stored |
| Handlers.NewComplaintAddsOne | app.py:109-116 | a new complaint is added under a fresh key, keeping every other complaint. It is owned by the signed-in user, holds the submitted text, is Pending and created now, and has no resolution time or note |
| Handlers.NewComplaintKeepsValid | app.py:110-116 | filing keeps the schema's constraints |
| Handlers.NewComplaintListedForOwnerOnly | app.py:110-129 | a filed complaint is in its owner's list and in no other stored user's list |
| Handlers.EditComplaint | app.py:188-203 | errors come in this order: Unauthenticated, NotFound, Forbidden for a non-owner, Invalid. Each leaves the store unchanged. It succeeds iff the owner submits a valid form, and then keeps the users and the set of keys |
| Handlers.EditChangesOnlyText | app.py:196-200 | an edit replaces the title and description of that complaint only; its status, owner, timestamps, note and id stay, and every other complaint stays |
| Handlers.EditKeepsValid | app.py:196-200 | an edit keeps the schema's constraints |
| Handlers.DeleteComplaint | app.py:206-216 | errors come in this order: Unauthenticated, NotFound, Forbidden for a non-owner. Each leaves the store unchanged. It succeeds iff the signed-in owner asks, and the key is then gone and the users are unchanged |
| Handlers.DeleteRemovesOne | app.py:209-216 | a delete removes exactly that key, keeps every other complaint and the constraints, and the row leaves its owner's list |
| Handlers.MarkInProgress | app.py:152-161 | errors come in this order: Unauthenticated, Forbidden for a non-admin, NotFound. Each leaves the store unchanged. It succeeds iff an admin names a stored complaint, which is then In Progress, whatever its status was |
| Handlers.MarkInProgressChangesOnlyStatus | app.py:158-160 | only that complaint's status changes; the keys, every other field and every other complaint stay, and the constraints hold |
| Handlers.ResolveComplaint | app.py:163-174 | errors come in this order: Unauthenticated, Forbidden, NotFound. Each leaves the store unchanged. It succeeds iff an admin names a stored complaint, which is then Resolved with the submitted (possibly absent) note and a resolution time of now |
| Handlers.ResolveChangesOnlyResolution | app.py:169-173 | resolving keeps the complaint's title, description, owner, creation time and id, every other complaint, and the constraints |
| Handlers.ResolveTwice | app.py:169-173 | resolving again succeeds and differs from the first resolution only in the note and the resolution time |
| Handlers.ResolutionOutlivesStatus | app.py:158-172 | a resolved complaint marked In Progress keeps its resolution time and note, so a resolution time does not imply the Resolved status |
| Handlers.NewComplaintCounts | app.py:110-116 | filing adds one to the total and to the Pending count, both for the owner and for the whole table; other users' counts do not change |
| Handlers.DeleteCounts | app.py:214-215 | a delete takes the row out of every count it was in |
| Handlers.MarkInProgressCounts | app.py:158-160 | marking In Progress moves the row from its old status's count to In Progress; totals stay |
| Handlers.ResolveCounts | app.py:169-173 | resolving moves the row from its old status's count to Resolved; totals stay |
| Server.App.constructor | models.py:6-23 | a fresh deployment starts with empty tables, which satisfy the constraints |
| Server.App.Register | app.py:44-51 | the in-place registration has exactly the registration step's effect and answer, and keeps the constraints |
| Server.App.NewComplaint | app.py:110-116 | the in-place filing has exactly the filing step's effect and answer, and keeps the constraints |
| Server.App.EditComplaint | app.py:191-200 | the in-place edit has exactly the edit step's effect and answer, and keeps the constraints |
| Server.App.DeleteComplaint | app.py:209-215 | the in-place delete has exactly the delete step's effect and answer, and keeps the constraints |
| Server.App.MarkInProgress | app.py:176-185 | the in-place status change has exactly the step's effect and answer (either definition of the route), and keeps the constraints |
| Server.App.ResolveComplaint | app.py:165-173 | the in-place resolution has exactly the step's effect and answer, and keeps the constraints |

## Behaviour of the code worth knowing

- **Duplicate usernames.** The register route looks only for a stored user
  with the same email (app.py:40). A taken username passes that check. The
  `unique` constraint on `username` (models.py:8) then refuses the commit,
  and the store is left unchanged. The model answers `UniqueViolation`.
- **Admin list order.** The admin list is ordered by creation time, newest
  first, and by nothing else (app.py:143).
- **Resolution fields after a status change.** `resolved_at` and
  `resolve_note` are written only by resolve, and nothing clears them. A
  resolved complaint moved back to In Progress keeps both (see
  `ResolutionOutlivesStatus`).
- **Status transitions and edits are unrestricted.** Any status can move to
  In Progress or to Resolved. Owners can edit a complaint in any status.
- **Two view functions named `mark_in_progress`.** app.py:152-161 and
  app.py:176-185 both register an endpoint of that name. Flask refuses to
  overwrite an existing endpoint with a different view function. The second
  decorator therefore raises an assertion error while app.py is imported,
  and as written the application never starts. The model covers what both
  definitions evidently intend: an admin moves a stored complaint to In
  Progress, and anyone else is turned away with the store unchanged. That is
  one operation, `MarkInProgress`.
- **`abort` is not imported in app.py.** The 403 paths at lines 180, 194 and
  212 would raise a name error, which becomes a server error instead of
  Forbidden. The store is unchanged either way; the model answers
  `Forbidden`, as evidently intended.

## Left out

- HTTP routing, redirects, flash messages, templates, and the static script
  static/js/main.js: presentation only.
- Requests other than a submitted POST with a valid CSRF token:
  - The model covers only the POST of register, login, new complaint and
    edit, carrying a valid CSRF token.
  - For these requests `Invalid` is decided from the field values alone.
  - A GET, or a POST whose token is missing or wrong, re-renders the form
    and changes nothing. The model does not represent those requests.
- The home and logout routes: they render a page or clear the session, and
  never touch the store.
- Session management (`login_user`, `logout_user`, the session cookie): the
  session is a parameter. Login is a query that returns the user to sign in.
- The Email() validator: it is a library routine and is the parameter
  `isEmail`.
- The password hashing scheme (werkzeug's method string, iterations and random
  salt): the hasher and the salt are parameters. The model does not check that
  the stored hash fits the 200-character `password` column.
- The clock: `datetime.utcnow()` is the parameter `now`. The model's
  timestamps are naturals and do not model time zones.
- `email` column width: the registration form puts no upper bound on the
  email, so `Valid` has no email-length constraint. Whether an over-long email
  is refused depends on the database engine, which is not modelled.
- Key allocation: keys come from a counter that never reuses a value. The
  database engine may reuse the largest key after that row is deleted.
- Order of rows created at the same instant: SQL leaves it unspecified.
  `SortNewestFirst` fixes one order, and no contract depends on it.
- Nullable `is_admin` and `user_id`: the model has a boolean and a natural.
  Registration always sets `is_admin` and filing always sets `user_id`.
  Administrator accounts are created outside the application.
- The `status` column is free text in the schema. The model stores one of the
  three statuses, because every write uses one of their texts.
- Transactions, concurrent requests and database errors other than the unique
  constraint: every request is one atomic step.
