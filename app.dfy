/** The application's state-changing handlers as they run: one object
    holds both tables and the next keys, and each handler updates the
    fields it names in place, in the order the checks are made. Each method
    is proved to have the effect of the handler's step function, and to
    keep the store's constraints. */
module Server {
  import opened Models
  import opened Forms
  import opened Store
  import opened Handlers

  class App {
    var users: map<nat, User>
    var complaints: map<nat, Complaint>
    var nextUserId: nat
    var nextComplaintId: nat

    /** The store the fields make up. */
    function State(): Db
      reads this
    {
      Db(users, complaints, nextUserId, nextComplaintId)
    }

    ghost predicate Valid()
      reads this
    {
      Store.Valid(State())
    }

    constructor ()
      ensures State() == EmptyDb && Valid()
    {
      users, complaints := map[], map[];
      nextUserId, nextComplaintId := 1, 1;
    }

    method Register(username: string, email: string, password: string,
                    isEmail: string -> bool, hash: Hasher, salt: string) returns (r: Result<nat>)
      requires Valid()
      modifies this
      ensures Valid()
      ensures Step(State(), r) == Handlers.Register(old(State()), username, email, password, isEmail, hash, salt)
    {
      if !RegisterFormValid(username, email, password, isEmail) {
        return Err(Invalid);
      }
      if EmailInUse(State(), email) {
        return Err(EmailTaken);
      }
      if UsernameInUse(State(), username) {
        return Err(UniqueViolation);
      }
      var id := nextUserId;
      var user := NewUserRow(id, username, email, PasswordRecord(salt, hash(salt, password)));
      RegisterSucceeds(State(), username, email, password, isEmail, hash, salt);
      users, nextUserId := users[id := user], id + 1;
      r := Ok(id);
    }

    method NewComplaint(session: Option<nat>, title: string, description: string, now: nat) returns (r: Result<nat>)
      requires Valid()
      modifies this
      ensures Valid()
      ensures Step(State(), r) == Handlers.NewComplaint(old(State()), session, title, description, now)
    {
      NewComplaintKeepsValid(State(), session, title, description, now);
      ghost var step := Handlers.NewComplaint(State(), session, title, description, now);
      var me := CurrentUser(State(), session);
      if me.None? {
        return Err(Unauthenticated);
      }
      if !ComplaintFormValid(title, description) {
        return Err(Invalid);
      }
      var id := nextComplaintId;
      complaints := complaints[id := NewComplaintRow(id, title, description, me.value.id, now)];
      nextComplaintId := id + 1;
      r := Ok(id);
      assert State() == step.db;
    }

    method EditComplaint(session: Option<nat>, id: nat, title: string, description: string) returns (r: Result<()>)
      requires Valid()
      modifies this
      ensures Valid()
      ensures Step(State(), r) == Handlers.EditComplaint(old(State()), session, id, title, description)
    {
      EditKeepsValid(State(), session, id, title, description);
      var me := CurrentUser(State(), session);
      if me.None? {
        return Err(Unauthenticated);
      }
      if id !in complaints {
        return Err(NotFound);
      }
      var c := complaints[id];
      if c.userId != me.value.id {
        return Err(Forbidden);
      }
      if !ComplaintFormValid(title, description) {
        return Err(Invalid);
      }
      complaints := complaints[id := c.(title := title, description := description)];
      r := Ok(());
    }

    method DeleteComplaint(session: Option<nat>, id: nat) returns (r: Result<()>)
      requires Valid()
      modifies this
      ensures Valid()
      ensures Step(State(), r) == Handlers.DeleteComplaint(old(State()), session, id)
    {
      DeleteRemovesOne(State(), session, id);
      var me := CurrentUser(State(), session);
      if me.None? {
        return Err(Unauthenticated);
      }
      if id !in complaints {
        return Err(NotFound);
      }
      if complaints[id].userId != me.value.id {
        return Err(Forbidden);
      }
      complaints := complaints - {id};
      r := Ok(());
    }

    method MarkInProgress(session: Option<nat>, id: nat) returns (r: Result<()>)
      requires Valid()
      modifies this
      ensures Valid()
      ensures Step(State(), r) == Handlers.MarkInProgress(old(State()), session, id)
    {
      MarkInProgressChangesOnlyStatus(State(), session, id);
      var me := CurrentUser(State(), session);
      if me.None? {
        return Err(Unauthenticated);
      }
      if !IsAdmin(me.value) {
        return Err(Forbidden);
      }
      if id !in complaints {
        return Err(NotFound);
      }
      var c := complaints[id];
      complaints := complaints[id := c.(status := InProgress)];
      r := Ok(());
    }

    method ResolveComplaint(session: Option<nat>, id: nat, note: Option<string>, now: nat) returns (r: Result<()>)
      requires Valid()
      modifies this
      ensures Valid()
      ensures Step(State(), r) == Handlers.ResolveComplaint(old(State()), session, id, note, now)
    {
      ResolveChangesOnlyResolution(State(), session, id, note, now);
      var me := CurrentUser(State(), session);
      if me.None? {
        return Err(Unauthenticated);
      }
      if !IsAdmin(me.value) {
        return Err(Forbidden);
      }
      if id !in complaints {
        return Err(NotFound);
      }
      var c := complaints[id];
      complaints := complaints[id := c.(status := Resolved, resolveNote := note, resolvedAt := Some(now))];
      r := Ok(());
    }
  }
}
