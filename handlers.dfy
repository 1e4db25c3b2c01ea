/** Each request handler of the application as one step on the store: it
    takes the store before the request and the session's principal, and
    gives the store after the request and what the request answered.
    A refused request answers an error and leaves the store as it was. */
module Handlers {
  import opened Models
  import opened Forms
  import opened Store

  datatype Error =
    | Unauthenticated  // `login_required`: no stored user behind the session
    | Forbidden        // the principal lacks the role, or does not own the row
    | NotFound         // `get_or_404` found no row with that id
    | Invalid          // the form did not validate and is shown again
    | EmailTaken       // registration found a user with that email
    | UniqueViolation  // the commit broke a unique constraint and was rolled back
    | BadCredentials   // no user with that email, or the password does not verify

  datatype Result<+T> = Ok(value: T) | Err(error: Error)

  /** The store after a request, and the request's answer. */
  datatype Step<+T> = Step(db: Db, result: Result<T>)

  /** The password hasher: a one-way function of a salt and a password. */
  type Hasher = (string, string) -> string

  /** Recomputes the digest with the stored salt and compares. */
  predicate CheckPasswordHash(stored: PasswordRecord, password: string, hash: Hasher)
  {
    hash(stored.salt, password) == stored.digest
  }

  predicate EmailInUse(db: Db, email: string)
  {
    exists k | k in db.users :: db.users[k].email == email
  }

  predicate UsernameInUse(db: Db, username: string)
  {
    exists k | k in db.users :: db.users[k].username == username
  }

  // ---------------- registration ----------------

  /** A valid form whose email is new inserts one non-admin user holding
      the salted digest of the password. A taken email is answered before
      anything is written; a taken username passes the application's check
      and is refused by the store's unique constraint at commit. */
  function Register(db: Db, username: string, email: string, password: string,
                    isEmail: string -> bool, hash: Hasher, salt: string): (r: Step<nat>)
    ensures r.result.Err? ==> r.db == db
    ensures !RegisterFormValid(username, email, password, isEmail) ==> r.result == Err(Invalid)
    ensures RegisterFormValid(username, email, password, isEmail) && EmailInUse(db, email) ==>
              r.result == Err(EmailTaken)
    ensures (RegisterFormValid(username, email, password, isEmail) && !EmailInUse(db, email)
              && UsernameInUse(db, username)) ==> r.result == Err(UniqueViolation)
    ensures r.result.Ok? <==>
              RegisterFormValid(username, email, password, isEmail)
              && !EmailInUse(db, email) && !UsernameInUse(db, username)
    ensures r.result.Ok? ==> r.db.complaints == db.complaints && r.result.value in r.db.users
  {
    if !RegisterFormValid(username, email, password, isEmail) then Step(db, Err(Invalid))
    else if EmailInUse(db, email) then Step(db, Err(EmailTaken))
    else if UsernameInUse(db, username) then Step(db, Err(UniqueViolation))
    else
      var id := db.nextUserId;
      var user := NewUserRow(id, username, email, PasswordRecord(salt, hash(salt, password)));
      Step(db.(users := db.users[id := user], nextUserId := id + 1), Ok(id))
  }

  /** A registration keeps the store's constraints: the new user's key is
      fresh, its username and email are unused, and its username fits its
      column. */
  lemma RegisterKeepsValid(db: Db, username: string, email: string, password: string,
                           isEmail: string -> bool, hash: Hasher, salt: string)
    requires Valid(db)
    ensures Valid(Register(db, username, email, password, isEmail, hash, salt).db)
  {
    var r := Register(db, username, email, password, isEmail, hash, salt);
    if r.result.Ok? {
      var id := r.result.value;
      var u := r.db.users;
      assert id !in db.users;
      FormsFitColumns(username, email, password, isEmail, "", "");
      forall a, b | a in u && b in u && a != b
        ensures u[a].username != u[b].username && u[a].email != u[b].email
      {
        if a == id {
          assert b in db.users;
        } else if b == id {
          assert a in db.users;
        }
      }
      assert UsersValid(u, r.db.nextUserId);
      ComplaintsMoreUsers(db.complaints, db.nextComplaintId, db.users.Keys, u.Keys);
    }
  }

  /** The store after a registration the form and the unique columns let
      through, and that it keeps the schema's constraints. */
  lemma RegisterSucceeds(db: Db, username: string, email: string, password: string,
                         isEmail: string -> bool, hash: Hasher, salt: string)
    requires Valid(db)
    requires RegisterFormValid(username, email, password, isEmail)
    requires !EmailInUse(db, email) && !UsernameInUse(db, username)
    ensures var id := db.nextUserId;
            var user := NewUserRow(id, username, email, PasswordRecord(salt, hash(salt, password)));
            var db2 := db.(users := db.users[id := user], nextUserId := id + 1);
            Register(db, username, email, password, isEmail, hash, salt) == Step(db2, Ok(id)) && Valid(db2)
  {
    RegisterKeepsValid(db, username, email, password, isEmail, hash, salt);
  }

  /** A successful registration adds exactly one user, under a key not used
      before; that user is not an admin and stores the digest of the
      password with its salt; every other user is kept as it was. */
  lemma RegisterAddsOneUser(db: Db, username: string, email: string, password: string,
                            isEmail: string -> bool, hash: Hasher, salt: string)
    requires Valid(db)
    ensures var r := Register(db, username, email, password, isEmail, hash, salt);
            (r.result.Ok? ==>
                  var id := r.result.value;
                  && id !in db.users
                  && r.db.users.Keys == db.users.Keys + {id}
                  && |r.db.users| == |db.users| + 1
                  && (forall k | k in db.users :: r.db.users[k] == db.users[k])
                  && r.db.users[id] == User(id, username, email, PasswordRecord(salt, hash(salt, password)), false))
  {
    var r := Register(db, username, email, password, isEmail, hash, salt);
    if r.result.Ok? {
      var id := db.nextUserId;
      var user := NewUserRow(id, username, email, PasswordRecord(salt, hash(salt, password)));
      assert r.db.users == db.users[id := user];
      assert id !in db.users;
      assert r.db.users.Keys == db.users.Keys + {id};
    }
  }

  // ---------------- login ----------------

  /** The first key of `ks` whose user has this email. */
  function FirstWithEmail(users: map<nat, User>, ks: seq<nat>, email: string): (r: Option<nat>)
    requires forall k | k in ks :: k in users
    ensures r.Some? ==> r.value in ks && users[r.value].email == email
    ensures r.None? ==> forall k | k in ks :: users[k].email != email
  {
    if ks == [] then None
    else if users[ks[0]].email == email then Some(ks[0])
    else FirstWithEmail(users, ks[1..], email)
  }

  /** Login looks the email up and verifies the password against the stored
      digest; it changes nothing in the store. An unknown email and a wrong
      password give the same answer. */
  function Login(db: Db, email: string, password: string, isEmail: string -> bool, hash: Hasher): (r: Result<User>)
    ensures !LoginFormValid(email, password, isEmail) ==> r == Err(Invalid)
    ensures LoginFormValid(email, password, isEmail) && !EmailInUse(db, email) ==> r == Err(BadCredentials)
    ensures LoginFormValid(email, password, isEmail) && r.Err? ==> r.error == BadCredentials
    ensures r.Err? ==> r.error == Invalid || r.error == BadCredentials
    ensures r.Ok? ==> && r.value in db.users.Values
                      && r.value.email == email
                      && CheckPasswordHash(r.value.password, password, hash)
  {
    if !LoginFormValid(email, password, isEmail) then Err(Invalid)
    else
      match FirstWithEmail(db.users, SortedKeys(db.users.Keys), email)
      case None => Err(BadCredentials)
      case Some(k) =>
        if CheckPasswordHash(db.users[k].password, password, hash) then Ok(db.users[k])
        else Err(BadCredentials)
  }

  /** With unique emails, login succeeds exactly when the form is valid and
      the user holding that email has a digest that the password verifies. */
  lemma LoginSucceedsIff(db: Db, email: string, password: string, isEmail: string -> bool, hash: Hasher, k: nat)
    requires Valid(db)
    requires k in db.users && db.users[k].email == email
    ensures Login(db, email, password, isEmail, hash).Ok? <==>
              LoginFormValid(email, password, isEmail) && CheckPasswordHash(db.users[k].password, password, hash)
    ensures Login(db, email, password, isEmail, hash).Ok? ==> Login(db, email, password, isEmail, hash).value == db.users[k]
  {
    var ks := SortedKeys(db.users.Keys);
    var found := FirstWithEmail(db.users, ks, email);
    assert k in ks;
    assert found.Some? && found.value == k;
  }

  /** Registering and then logging in with the same email and password
      signs in as the new user, who is not an admin. */
  lemma RegisterThenLogin(db: Db, username: string, email: string, password: string,
                          isEmail: string -> bool, hash: Hasher, salt: string)
    requires Valid(db)
    requires Register(db, username, email, password, isEmail, hash, salt).result.Ok?
    ensures var r := Register(db, username, email, password, isEmail, hash, salt);
            var l := Login(r.db, email, password, isEmail, hash);
            l.Ok? && l.value.id == r.result.value && !IsAdmin(l.value)
  {
    var r := Register(db, username, email, password, isEmail, hash, salt);
    RegisterKeepsValid(db, username, email, password, isEmail, hash, salt);
    RegisterAddsOneUser(db, username, email, password, isEmail, hash, salt);
    var id := r.result.value;
    assert LoginFormValid(email, password, isEmail);
    LoginSucceedsIff(r.db, email, password, isEmail, hash, id);
  }

  /** A second account under a taken username, with an email nobody holds,
      passes the application's own check (which looks only at the email)
      and is refused by the store's unique constraint, which leaves the
      store as it was. */
  lemma DuplicateUsernameReachesTheStore(db: Db, username: string, email1: string, password1: string,
                                         email2: string, password2: string,
                                         isEmail: string -> bool, hash: Hasher, salt1: string, salt2: string)
    requires Valid(db)
    requires Register(db, username, email1, password1, isEmail, hash, salt1).result.Ok?
    requires RegisterFormValid(username, email2, password2, isEmail)
    requires email2 != email1 && !EmailInUse(db, email2)
    ensures var r1 := Register(db, username, email1, password1, isEmail, hash, salt1);
            var r2 := Register(r1.db, username, email2, password2, isEmail, hash, salt2);
            && !EmailInUse(r1.db, email2)
            && r2.result == Err(UniqueViolation)
            && r2.db == r1.db
  {
    var r1 := Register(db, username, email1, password1, isEmail, hash, salt1);
    RegisterAddsOneUser(db, username, email1, password1, isEmail, hash, salt1);
    var id := r1.result.value;
    forall k | k in r1.db.users
      ensures r1.db.users[k].email != email2
    {
      if k != id {
        assert k in db.users;
      }
    }
    assert r1.db.users[id].username == username;
  }

  // ---------------- complaint queries ----------------

  /** The status counts a dashboard shows. */
  datatype Summary = Summary(total: nat, pending: nat, inProgress: nat, resolved: nat)

  /** Counts `rows` by status; every row falls under exactly one status, so
      the three counts add up to the total. */
  function Summarize(rows: seq<Complaint>): (s: Summary)
    ensures s.total == |rows|
    ensures s.pending == |set i | 0 <= i < |rows| && rows[i].status == Pending|
    ensures s.inProgress == |set i | 0 <= i < |rows| && rows[i].status == InProgress|
    ensures s.resolved == |set i | 0 <= i < |rows| && rows[i].status == Resolved|
    ensures s.pending + s.inProgress + s.resolved == s.total
  {
    CountsPartition(rows);
    CountStatusIndices(rows, Pending);
    CountStatusIndices(rows, InProgress);
    CountStatusIndices(rows, Resolved);
    Summary(|rows|, CountStatus(rows, Pending), CountStatus(rows, InProgress), CountStatus(rows, Resolved))
  }

  /** The signed-in user's complaints, newest first. */
  function MyComplaints(db: Db, session: Option<nat>): (r: Result<seq<Complaint>>)
    ensures r.Err? <==> CurrentUser(db, session).None?
    ensures r.Err? ==> r.error == Unauthenticated
    ensures r.Ok? ==> NewestFirst(r.value)
    ensures r.Ok? ==> forall c :: c in r.value <==>
                        c in db.complaints.Values && c.userId == CurrentUser(db, session).value.id
    ensures r.Ok? ==> |r.value| == |KeysWhere(db.complaints, Some(CurrentUser(db, session).value.id), None)|
  {
    match CurrentUser(db, session)
    case None => Err(Unauthenticated)
    case Some(me) =>
      AllComplaintsMembers(db);
      var mine := OwnedBy(AllComplaints(db), me.id);
      var sorted := SortNewestFirst(mine);
      assert forall c :: c in sorted <==> c in multiset(mine);
      assert |sorted| == |multiset(mine)|;
      CountOwned(AllComplaints(db), me.id, None);
      CountTable(db, Some(me.id), None);
      Ok(sorted)
  }

  /** The rows of the table scan are exactly the stored complaints. */
  lemma AllComplaintsMembers(db: Db)
    ensures forall c :: c in AllComplaints(db) <==> c in db.complaints.Values
  {
    var ks := SortedKeys(db.complaints.Keys);
    var rows := AllComplaints(db);
    forall c | c in rows
      ensures c in db.complaints.Values
    {
      var i :| 0 <= i < |rows| && rows[i] == c;
      var k := ks[i];
      assert k in db.complaints && db.complaints[k] == c;
    }
    forall c | c in db.complaints.Values
      ensures c in rows
    {
      var k :| k in db.complaints && db.complaints[k] == c;
      assert k in ks;
      var i :| 0 <= i < |ks| && ks[i] == k;
      assert rows[i] == c;
    }
  }

  /** The counts of the table itself: the complaints of `owner` (of
      everyone when absent), in all and in each status. */
  ghost function TableSummary(db: Db, owner: Option<nat>): Summary
  {
    Summary(
      |KeysWhere(db.complaints, owner, None)|,
      |KeysWhere(db.complaints, owner, Some(Pending))|,
      |KeysWhere(db.complaints, owner, Some(InProgress))|,
      |KeysWhere(db.complaints, owner, Some(Resolved))|)
  }

  /** Counting an owner's rows of the table scan counts that owner's
      complaints in the table. */
  lemma SummarizeOwned(db: Db, uid: nat)
    ensures Summarize(OwnedBy(AllComplaints(db), uid)) == TableSummary(db, Some(uid))
  {
    var all := AllComplaints(db);
    CountOwned(all, uid, Some(Pending));
    CountOwned(all, uid, Some(InProgress));
    CountOwned(all, uid, Some(Resolved));
    CountTable(db, Some(uid), None);
    CountTable(db, Some(uid), Some(Pending));
    CountTable(db, Some(uid), Some(InProgress));
    CountTable(db, Some(uid), Some(Resolved));
  }

  /** Counting the whole table scan counts the table. */
  lemma SummarizeAll(db: Db)
    ensures Summarize(AllComplaints(db)) == TableSummary(db, None)
    ensures TableSummary(db, None).total == |db.complaints|
  {
    CountTable(db, None, Some(Pending));
    CountTable(db, None, Some(InProgress));
    CountTable(db, None, Some(Resolved));
    assert KeysWhere(db.complaints, None, None) == db.complaints.Keys;
  }

  /** The signed-in user's dashboard: the number of complaints they own,
      in all and in each status. */
  function Dashboard(db: Db, session: Option<nat>): (r: Result<Summary>)
    ensures r.Err? <==> CurrentUser(db, session).None?
    ensures r.Err? ==> r.error == Unauthenticated
    ensures r.Ok? ==> r.value == TableSummary(db, Some(CurrentUser(db, session).value.id))
    ensures r.Ok? ==> r.value.pending + r.value.inProgress + r.value.resolved == r.value.total
    ensures r.Ok? ==> r.value.total == |MyComplaints(db, session).value|
  {
    match CurrentUser(db, session)
    case None => Err(Unauthenticated)
    case Some(me) =>
      var mine := OwnedBy(AllComplaints(db), me.id);
      assert |SortNewestFirst(mine)| == |multiset(mine)|;
      SummarizeOwned(db, me.id);
      Ok(Summarize(mine))
  }

  /** What the admin dashboard shows. */
  datatype AdminView = AdminView(complaints: seq<Complaint>, totalUsers: nat, summary: Summary)

  /** The admin dashboard: every complaint newest first, the number of
      users and the whole table counted by status. Other users are turned
      away. */
  function AdminDashboard(db: Db, session: Option<nat>): (r: Result<AdminView>)
    ensures CurrentUser(db, session).None? ==> r == Err(Unauthenticated)
    ensures CurrentUser(db, session).Some? && !IsAdmin(CurrentUser(db, session).value) ==> r == Err(Forbidden)
    ensures r.Ok? <==> CurrentUser(db, session).Some? && IsAdmin(CurrentUser(db, session).value)
    ensures r.Ok? ==> NewestFirst(r.value.complaints)
    ensures r.Ok? ==> forall c :: c in r.value.complaints <==> c in db.complaints.Values
    ensures r.Ok? ==> r.value.totalUsers == |db.users|
    ensures r.Ok? ==> r.value.summary == TableSummary(db, None)
    ensures r.Ok? ==> r.value.summary.total == |db.complaints| == |r.value.complaints|
    ensures r.Ok? ==> r.value.summary.pending + r.value.summary.inProgress + r.value.summary.resolved
                        == r.value.summary.total
  {
    match CurrentUser(db, session)
    case None => Err(Unauthenticated)
    case Some(me) =>
      if !IsAdmin(me) then Err(Forbidden)
      else
        AllComplaintsMembers(db);
        SummarizeAll(db);
        var all := AllComplaints(db);
        var sorted := SortNewestFirst(all);
        assert forall c :: c in sorted <==> c in multiset(all);
        assert |sorted| == |multiset(all)|;
        Ok(AdminView(sorted, |db.users|, Summarize(all)))
  }

  // ---------------- complaint changes ----------------

  /** A signed-in user with a valid form files a complaint that they own. */
  function NewComplaint(db: Db, session: Option<nat>, title: string, description: string, now: nat): (r: Step<nat>)
    ensures r.result.Err? ==> r.db == db
    ensures CurrentUser(db, session).None? ==> r.result == Err(Unauthenticated)
    ensures CurrentUser(db, session).Some? && !ComplaintFormValid(title, description) ==> r.result == Err(Invalid)
    ensures r.result.Ok? <==> CurrentUser(db, session).Some? && ComplaintFormValid(title, description)
    ensures r.result.Ok? ==> r.db.users == db.users && r.result.value in r.db.complaints
  {
    match CurrentUser(db, session)
    case None => Step(db, Err(Unauthenticated))
    case Some(me) =>
      if !ComplaintFormValid(title, description) then Step(db, Err(Invalid))
      else
        var id := db.nextComplaintId;
        var c := NewComplaintRow(id, title, description, me.id, now);
        Step(db.(complaints := db.complaints[id := c], nextComplaintId := id + 1), Ok(id))
  }

  /** Filing adds exactly one complaint under a new key: owned by the
      signed-in user, Pending, created now, with no resolution time or note.
      Every other complaint and every user is kept. */
  lemma NewComplaintAddsOne(db: Db, session: Option<nat>, title: string, description: string, now: nat)
    requires Valid(db)
    ensures var r := NewComplaint(db, session, title, description, now);
            (r.result.Ok? ==>
                  var id := r.result.value;
                  var c := r.db.complaints[id];
                  && id !in db.complaints
                  && r.db.complaints.Keys == db.complaints.Keys + {id}
                  && (forall k | k in db.complaints :: r.db.complaints[k] == db.complaints[k])
                  && c.userId == session.value && c.title == title && c.description == description
                  && c.status == Pending && c.createdAt == now
                  && c.resolvedAt.None? && c.resolveNote.None?)
  {
    var r := NewComplaint(db, session, title, description, now);
    if r.result.Ok? {
      assert r.result.value !in db.complaints;
    }
  }

  /** Filing keeps the store's constraints: the new key is fresh, the owner
      is a stored user and the title fits its column. */
  lemma NewComplaintKeepsValid(db: Db, session: Option<nat>, title: string, description: string, now: nat)
    requires Valid(db)
    ensures Valid(NewComplaint(db, session, title, description, now).db)
  {
    var r := NewComplaint(db, session, title, description, now);
    if r.result.Ok? {
      FormsFitColumns("", "", "", s => true, title, description);
      ComplaintsPut(db.complaints, db.nextComplaintId, r.db.nextComplaintId, db.users.Keys, r.db.complaints[r.result.value]);
    }
  }

  /** A filed complaint is in its owner's list and in no one else's. */
  lemma NewComplaintListedForOwnerOnly(db: Db, session: Option<nat>, title: string, description: string,
                                       now: nat, other: nat)
    requires Valid(db)
    requires NewComplaint(db, session, title, description, now).result.Ok?
    requires other in db.users && Some(other) != session
    ensures var r := NewComplaint(db, session, title, description, now);
            var c := r.db.complaints[r.result.value];
            && c in MyComplaints(r.db, session).value
            && c !in MyComplaints(r.db, Some(other)).value
  {
    var r := NewComplaint(db, session, title, description, now);
    NewComplaintAddsOne(db, session, title, description, now);
    var c := r.db.complaints[r.result.value];
    assert c in r.db.complaints.Values;
  }

  /** The owner edits the title and description of their complaint. The row
      is looked up first, then ownership is checked, then the form. */
  function EditComplaint(db: Db, session: Option<nat>, id: nat, title: string, description: string): (r: Step<()>)
    ensures r.result.Err? ==> r.db == db
    ensures CurrentUser(db, session).None? ==> r.result == Err(Unauthenticated)
    ensures CurrentUser(db, session).Some? && id !in db.complaints ==> r.result == Err(NotFound)
    ensures (CurrentUser(db, session).Some? && id in db.complaints
              && db.complaints[id].userId != CurrentUser(db, session).value.id) ==> r.result == Err(Forbidden)
    ensures (CurrentUser(db, session).Some? && id in db.complaints
              && db.complaints[id].userId == CurrentUser(db, session).value.id
              && !ComplaintFormValid(title, description)) ==> r.result == Err(Invalid)
    ensures r.result.Ok? <==>
              && CurrentUser(db, session).Some? && id in db.complaints
              && db.complaints[id].userId == CurrentUser(db, session).value.id
              && ComplaintFormValid(title, description)
    ensures r.result.Ok? ==> r.db.users == db.users && r.db.complaints.Keys == db.complaints.Keys
  {
    match CurrentUser(db, session)
    case None => Step(db, Err(Unauthenticated))
    case Some(me) =>
      if id !in db.complaints then Step(db, Err(NotFound))
      else
        var c := db.complaints[id];
        if c.userId != me.id then Step(db, Err(Forbidden))
        else if !ComplaintFormValid(title, description) then Step(db, Err(Invalid))
        else Step(db.(complaints := db.complaints[id := c.(title := title, description := description)]), Ok(()))
  }

  /** An edit replaces the title and description of that one complaint and
      nothing else: its status, owner, timestamps and note stay. */
  lemma EditChangesOnlyText(db: Db, session: Option<nat>, id: nat, title: string, description: string)
    ensures var r := EditComplaint(db, session, id, title, description);
            (r.result.Ok? ==>
                  var before, after := db.complaints[id], r.db.complaints[id];
                  && after.title == title && after.description == description
                  && after.status == before.status && after.userId == before.userId
                  && after.createdAt == before.createdAt && after.resolvedAt == before.resolvedAt
                  && after.resolveNote == before.resolveNote && after.id == before.id
                  && (forall k | k in db.complaints && k != id :: r.db.complaints[k] == db.complaints[k]))
  {
  }

  /** An edit keeps the store's constraints: the new title fits its column
      and the key and owner stay. */
  lemma EditKeepsValid(db: Db, session: Option<nat>, id: nat, title: string, description: string)
    requires Valid(db)
    ensures Valid(EditComplaint(db, session, id, title, description).db)
  {
    var r := EditComplaint(db, session, id, title, description);
    if r.result.Ok? {
      FormsFitColumns("", "", "", s => true, title, description);
      ComplaintsPut(db.complaints, db.nextComplaintId, db.nextComplaintId, db.users.Keys, r.db.complaints[id]);
    }
  }

  /** The owner deletes their complaint for good. */
  function DeleteComplaint(db: Db, session: Option<nat>, id: nat): (r: Step<()>)
    ensures r.result.Err? ==> r.db == db
    ensures CurrentUser(db, session).None? ==> r.result == Err(Unauthenticated)
    ensures CurrentUser(db, session).Some? && id !in db.complaints ==> r.result == Err(NotFound)
    ensures (CurrentUser(db, session).Some? && id in db.complaints
              && db.complaints[id].userId != CurrentUser(db, session).value.id) ==> r.result == Err(Forbidden)
    ensures r.result.Ok? <==>
              && CurrentUser(db, session).Some? && id in db.complaints
              && db.complaints[id].userId == CurrentUser(db, session).value.id
    ensures r.result.Ok? ==> r.db.users == db.users && id !in r.db.complaints
  {
    match CurrentUser(db, session)
    case None => Step(db, Err(Unauthenticated))
    case Some(me) =>
      if id !in db.complaints then Step(db, Err(NotFound))
      else if db.complaints[id].userId != me.id then Step(db, Err(Forbidden))
      else Step(db.(complaints := db.complaints - {id}), Ok(()))
  }

  /** A delete removes exactly that key, keeps every other complaint, and
      the complaint no longer shows in its owner's list. */
  lemma DeleteRemovesOne(db: Db, session: Option<nat>, id: nat)
    requires Valid(db)
    ensures var r := DeleteComplaint(db, session, id);
            && Valid(r.db)
            && (r.result.Ok? ==>
                  && r.db.complaints.Keys == db.complaints.Keys - {id}
                  && (forall k | k in r.db.complaints :: r.db.complaints[k] == db.complaints[k])
                  && db.complaints[id] !in MyComplaints(r.db, session).value)
  {
    var r := DeleteComplaint(db, session, id);
    ComplaintsRemove(db.complaints, db.nextComplaintId, db.users.Keys, id);
    if r.result.Ok? {
      var c := db.complaints[id];
      forall k | k in r.db.complaints
        ensures r.db.complaints[k] != c
      {
        assert r.db.complaints[k].id == k;
      }
      assert c !in r.db.complaints.Values;
    }
  }

  /** An admin moves a complaint to In Progress, whatever its status was.
      The role is checked before the row is looked up. */
  function MarkInProgress(db: Db, session: Option<nat>, id: nat): (r: Step<()>)
    ensures r.result.Err? ==> r.db == db
    ensures CurrentUser(db, session).None? ==> r.result == Err(Unauthenticated)
    ensures CurrentUser(db, session).Some? && !IsAdmin(CurrentUser(db, session).value) ==> r.result == Err(Forbidden)
    ensures (CurrentUser(db, session).Some? && IsAdmin(CurrentUser(db, session).value)
              && id !in db.complaints) ==> r.result == Err(NotFound)
    ensures r.result.Ok? <==>
              CurrentUser(db, session).Some? && IsAdmin(CurrentUser(db, session).value) && id in db.complaints
    ensures r.result.Ok? ==> r.db.users == db.users && id in r.db.complaints
                             && r.db.complaints[id].status == InProgress
  {
    match CurrentUser(db, session)
    case None => Step(db, Err(Unauthenticated))
    case Some(me) =>
      if !IsAdmin(me) then Step(db, Err(Forbidden))
      else if id !in db.complaints then Step(db, Err(NotFound))
      else
        var c := db.complaints[id];
        Step(db.(complaints := db.complaints[id := c.(status := InProgress)]), Ok(()))
  }

  /** Marking In Progress changes the status of that one complaint and no
      other field: a resolved complaint keeps its resolution time and note. */
  lemma MarkInProgressChangesOnlyStatus(db: Db, session: Option<nat>, id: nat)
    requires Valid(db)
    ensures var r := MarkInProgress(db, session, id);
            && Valid(r.db)
            && (r.result.Ok? ==>
                  && r.db.complaints.Keys == db.complaints.Keys
                  && r.db.complaints[id] == db.complaints[id].(status := InProgress)
                  && (forall k | k in db.complaints && k != id :: r.db.complaints[k] == db.complaints[k]))
  {
    var r := MarkInProgress(db, session, id);
    if r.result.Ok? {
      ComplaintsPut(db.complaints, db.nextComplaintId, db.nextComplaintId, db.users.Keys, r.db.complaints[id]);
    }
  }

  /** An admin resolves a complaint: status, note and resolution time are
      set together, from any status. The note may be absent. */
  function ResolveComplaint(db: Db, session: Option<nat>, id: nat, note: Option<string>, now: nat): (r: Step<()>)
    ensures r.result.Err? ==> r.db == db
    ensures CurrentUser(db, session).None? ==> r.result == Err(Unauthenticated)
    ensures CurrentUser(db, session).Some? && !IsAdmin(CurrentUser(db, session).value) ==> r.result == Err(Forbidden)
    ensures (CurrentUser(db, session).Some? && IsAdmin(CurrentUser(db, session).value)
              && id !in db.complaints) ==> r.result == Err(NotFound)
    ensures r.result.Ok? <==>
              CurrentUser(db, session).Some? && IsAdmin(CurrentUser(db, session).value) && id in db.complaints
    ensures r.result.Ok? ==> && r.db.users == db.users && id in r.db.complaints
                             && r.db.complaints[id].status == Resolved
                             && r.db.complaints[id].resolveNote == note
                             && r.db.complaints[id].resolvedAt == Some(now)
  {
    match CurrentUser(db, session)
    case None => Step(db, Err(Unauthenticated))
    case Some(me) =>
      if !IsAdmin(me) then Step(db, Err(Forbidden))
      else if id !in db.complaints then Step(db, Err(NotFound))
      else
        var c := db.complaints[id];
        Step(db.(complaints := db.complaints[id := c.(status := Resolved, resolveNote := note, resolvedAt := Some(now))]), Ok(()))
  }

  /** Resolving touches only the status, note and resolution time of that
      one complaint: its title, description, owner and creation time stay,
      and so does every other complaint. */
  lemma ResolveChangesOnlyResolution(db: Db, session: Option<nat>, id: nat, note: Option<string>, now: nat)
    requires Valid(db)
    ensures var r := ResolveComplaint(db, session, id, note, now);
            && Valid(r.db)
            && (r.result.Ok? ==>
                  var before, after := db.complaints[id], r.db.complaints[id];
                  && r.db.complaints.Keys == db.complaints.Keys
                  && after.title == before.title && after.description == before.description
                  && after.userId == before.userId && after.createdAt == before.createdAt
                  && after.id == before.id
                  && (forall k | k in db.complaints && k != id :: r.db.complaints[k] == db.complaints[k]))
  {
    var r := ResolveComplaint(db, session, id, note, now);
    if r.result.Ok? {
      ComplaintsPut(db.complaints, db.nextComplaintId, db.nextComplaintId, db.users.Keys, r.db.complaints[id]);
    }
  }

  /** Resolving twice leaves the complaint Resolved with the second note
      and the second time: the status is idempotent, the time is not. */
  lemma ResolveTwice(db: Db, session: Option<nat>, id: nat, note1: Option<string>, t1: nat,
                     note2: Option<string>, t2: nat)
    requires ResolveComplaint(db, session, id, note1, t1).result.Ok?
    ensures var r1 := ResolveComplaint(db, session, id, note1, t1);
            var r2 := ResolveComplaint(r1.db, session, id, note2, t2);
            && r2.result.Ok?
            && r2.db.complaints[id] == r1.db.complaints[id].(resolveNote := note2, resolvedAt := Some(t2))
  {
  }

  /** A resolved complaint moved back to In Progress still carries its
      resolution time and note: a resolution time does not imply the
      Resolved status. */
  lemma ResolutionOutlivesStatus(db: Db, session: Option<nat>, id: nat, note: Option<string>, t: nat)
    requires ResolveComplaint(db, session, id, note, t).result.Ok?
    ensures var r1 := ResolveComplaint(db, session, id, note, t);
            var r2 := MarkInProgress(r1.db, session, id);
            && r2.result.Ok?
            && r2.db.complaints[id].status == InProgress
            && r2.db.complaints[id].resolvedAt == Some(t)
            && r2.db.complaints[id].resolveNote == note
  {
  }

  // ---------------- how each change moves the counts ----------------

  function Plus(a: Summary, b: Summary): Summary
  {
    Summary(a.total + b.total, a.pending + b.pending, a.inProgress + b.inProgress, a.resolved + b.resolved)
  }

  /** What one row adds to the counts of `owner`'s complaints (of everyone's
      when absent). */
  function Tally(c: Complaint, owner: Option<nat>): Summary
  {
    Summary(One(Selects(c, owner, None)), One(Selects(c, owner, Some(Pending))),
            One(Selects(c, owner, Some(InProgress))), One(Selects(c, owner, Some(Resolved))))
  }

  /** What the row under key `id` adds to the counts; nothing when there
      is no such row. */
  function TallyAt(db: Db, id: nat, owner: Option<nat>): Summary
  {
    var cs := db.complaints;
    Summary(OneAt(cs, id, owner, None), OneAt(cs, id, owner, Some(Pending)),
            OneAt(cs, id, owner, Some(InProgress)), OneAt(cs, id, owner, Some(Resolved)))
  }

  /** Two stores whose complaint tables differ at most at key `id`: the
      counts of the one, with the old row's tally, are the counts of the
      other with the new row's. */
  lemma TableSummaryChangedAt(db: Db, db2: Db, id: nat, owner: Option<nat>)
    requires SameExceptAt(db.complaints, db2.complaints, id)
    ensures Plus(TableSummary(db2, owner), TallyAt(db, id, owner))
            == Plus(TableSummary(db, owner), TallyAt(db2, id, owner))
  {
    var cs, cs2 := db.complaints, db2.complaints;
    KeysWhereChangedAt(cs, cs2, id, owner, None);
    KeysWhereChangedAt(cs, cs2, id, owner, Some(Pending));
    KeysWhereChangedAt(cs, cs2, id, owner, Some(InProgress));
    KeysWhereChangedAt(cs, cs2, id, owner, Some(Resolved));
  }

  /** Putting row `c` under key `id`: the new counts with the old row's
      tally are the old counts with `c`'s. */
  lemma CountsAfterPut(db: Db, db2: Db, id: nat, c: Complaint, owner: Option<nat>)
    requires db2.complaints == db.complaints[id := c]
    ensures Plus(TableSummary(db2, owner), TallyAt(db, id, owner))
            == Plus(TableSummary(db, owner), Tally(c, owner))
  {
    SameExceptPut(db.complaints, id, c);
    TableSummaryChangedAt(db, db2, id, owner);
    TallyAtRow(db2, id, owner);
  }

  /** A stored row's tally, looked up by key. */
  lemma TallyAtRow(db: Db, id: nat, owner: Option<nat>)
    requires id in db.complaints
    ensures TallyAt(db, id, owner) == Tally(db.complaints[id], owner)
  {
  }

  /** Deleting the row under key `id`: the new counts with the old row's
      tally are the old counts. */
  lemma CountsAfterRemove(db: Db, db2: Db, id: nat, owner: Option<nat>)
    requires db2.complaints == db.complaints - {id}
    ensures Plus(TableSummary(db2, owner), TallyAt(db, id, owner)) == TableSummary(db, owner)
  {
    SameExceptRemove(db.complaints, id);
    TableSummaryChangedAt(db, db2, id, owner);
    assert TallyAt(db2, id, owner) == Summary(0, 0, 0, 0) by {
      assert id !in db2.complaints;
    }
    PlusZero(TableSummary(db, owner));
  }

  /** Filing a complaint adds one Pending complaint to the counts of its
      owner and to the admin's counts, and nothing to anyone else's. */
  lemma NewComplaintCounts(db: Db, session: Option<nat>, title: string, description: string, now: nat,
                           owner: Option<nat>)
    requires Valid(db)
    requires NewComplaint(db, session, title, description, now).result.Ok?
    ensures var r := NewComplaint(db, session, title, description, now);
            var added := owner.None? || owner == session;
            TableSummary(r.db, owner) ==
              Plus(TableSummary(db, owner), Summary(One(added), One(added), 0, 0))
  {
    var me := CurrentUser(db, session).value;
    var id := db.nextComplaintId;
    var c := NewComplaintRow(id, title, description, me.id, now);
    var db2 := NewComplaint(db, session, title, description, now).db;
    assert db2.complaints == db.complaints[id := c];
    assert id !in db.complaints;
    CountsAfterAdd(db, db2, id, c, owner);
    TallyOfNewRow(c, session, owner);
  }

  /** Adding row `c` under a fresh key adds its tally to the counts. */
  lemma CountsAfterAdd(db: Db, db2: Db, id: nat, c: Complaint, owner: Option<nat>)
    requires id !in db.complaints && db2.complaints == db.complaints[id := c]
    ensures TableSummary(db2, owner) == Plus(TableSummary(db, owner), Tally(c, owner))
  {
    CountsAfterPut(db, db2, id, c, owner);
    assert TallyAt(db, id, owner) == Summary(0, 0, 0, 0);
    PlusZero(TableSummary(db2, owner));
  }

  /** Adding no rows leaves counts as they are. */
  lemma PlusZero(a: Summary)
    ensures Plus(a, Summary(0, 0, 0, 0)) == a
  {
  }

  /** A new Pending row owned by the signed-in user counts once, as Pending,
      for the admin and for its owner, and for nobody else. */
  lemma TallyOfNewRow(c: Complaint, session: Option<nat>, owner: Option<nat>)
    requires c.status == Pending && Some(c.userId) == session
    ensures var added := owner.None? || owner == session;
            Tally(c, owner) == Summary(One(added), One(added), 0, 0)
  {
  }

  /** Deleting a complaint takes its row out of every count it was in. */
  lemma DeleteCounts(db: Db, session: Option<nat>, id: nat, owner: Option<nat>)
    requires DeleteComplaint(db, session, id).result.Ok?
    ensures Plus(TableSummary(DeleteComplaint(db, session, id).db, owner), Tally(db.complaints[id], owner))
            == TableSummary(db, owner)
  {
    var db2 := DeleteComplaint(db, session, id).db;
    assert db2.complaints == db.complaints - {id};
    CountsAfterRemove(db, db2, id, owner);
    TallyAtRow(db, id, owner);
  }

  /** Marking In Progress moves the row from its old status's count to the
      In Progress count; no total changes. */
  lemma MarkInProgressCounts(db: Db, session: Option<nat>, id: nat, owner: Option<nat>)
    requires MarkInProgress(db, session, id).result.Ok?
    ensures var r := MarkInProgress(db, session, id);
            Plus(TableSummary(r.db, owner), Tally(db.complaints[id], owner))
            == Plus(TableSummary(db, owner), Tally(db.complaints[id].(status := InProgress), owner))
  {
    var c := db.complaints[id];
    CountsAfterPut(db, MarkInProgress(db, session, id).db, id, c.(status := InProgress), owner);
    TallyAtRow(db, id, owner);
  }

  /** Resolving moves the row from its old status's count to the Resolved
      count; no total changes. */
  lemma ResolveCounts(db: Db, session: Option<nat>, id: nat, note: Option<string>, now: nat, owner: Option<nat>)
    requires ResolveComplaint(db, session, id, note, now).result.Ok?
    ensures var r := ResolveComplaint(db, session, id, note, now);
            Plus(TableSummary(r.db, owner), Tally(db.complaints[id], owner))
            == Plus(TableSummary(db, owner), Tally(db.complaints[id].(status := Resolved), owner))
  {
    var c := db.complaints[id];
    CountsAfterPut(db, ResolveComplaint(db, session, id, note, now).db, id,
                   c.(status := Resolved, resolveNote := note, resolvedAt := Some(now)), owner);
    TallyAtRow(db, id, owner);
  }
}
