/** The relational store as one value: both tables keyed by primary key,
    and the next key each table hands out. Also the table scans the
    application's queries are built from: rows in key order, filtering
    by owner, ordering by creation time and counting by status. */
module Store {
  import opened Models

  datatype Db = Db(
    users: map<nat, User>,
    complaints: map<nat, Complaint>,
    nextUserId: nat,
    nextComplaintId: nat)

  /** The store a fresh deployment starts from. */
  const EmptyDb: Db := Db(map[], map[], 1, 1)

  /** The constraints on the `user` table: primary keys agree with the map
      keys and lie below the next key; `username` and `email` are unique;
      usernames fit their column. */
  ghost predicate UsersValid(users: map<nat, User>, nextUserId: nat)
  {
    && (forall k | k in users :: users[k].id == k && k < nextUserId && |users[k].username| <= UsernameColumnMax)
    && (forall a, b | a in users && b in users && a != b ::
          users[a].username != users[b].username && users[a].email != users[b].email)
  }

  /** The constraints on the `complaint` table: primary keys agree with the
      map keys and lie below the next key; every `user_id` names a stored
      user (the foreign key); titles fit their column. */
  ghost predicate ComplaintsValid(complaints: map<nat, Complaint>, nextComplaintId: nat, userKeys: set<nat>)
  {
    forall k | k in complaints ::
      && complaints[k].id == k && k < nextComplaintId
      && complaints[k].userId in userKeys
      && |complaints[k].title| <= TitleColumnMax
  }

  /** The schema's constraints on the stored rows. */
  ghost predicate Valid(db: Db)
  {
    UsersValid(db.users, db.nextUserId) && ComplaintsValid(db.complaints, db.nextComplaintId, db.users.Keys)
  }

  lemma EmptyDbValid()
    ensures Valid(EmptyDb)
  {
  }

  /** Writing a row that satisfies the complaint constraints under its own
      key keeps them. */
  lemma ComplaintsPut(cs: map<nat, Complaint>, next: nat, next2: nat, userKeys: set<nat>, c: Complaint)
    requires ComplaintsValid(cs, next, userKeys)
    requires next <= next2 && c.id < next2
    requires c.userId in userKeys && |c.title| <= TitleColumnMax
    ensures ComplaintsValid(cs[c.id := c], next2, userKeys)
  {
  }

  /** Deleting a row keeps the complaint constraints. */
  lemma ComplaintsRemove(cs: map<nat, Complaint>, next: nat, userKeys: set<nat>, id: nat)
    requires ComplaintsValid(cs, next, userKeys)
    ensures ComplaintsValid(cs - {id}, next, userKeys)
  {
  }

  /** Adding users keeps every foreign key satisfied. */
  lemma ComplaintsMoreUsers(cs: map<nat, Complaint>, next: nat, userKeys: set<nat>, userKeys2: set<nat>)
    requires ComplaintsValid(cs, next, userKeys) && userKeys <= userKeys2
    ensures ComplaintsValid(cs, next, userKeys2)
  {
  }

  // ---- the session principal ----

  /** The user a session stands for: the stored user whose id the session
      holds, or none when the session is anonymous or names no stored user. */
  function CurrentUser(db: Db, session: Option<nat>): (r: Option<User>)
    ensures r.Some? <==> session.Some? && session.value in db.users
    ensures r.Some? ==> r.value == db.users[session.value]
    ensures Valid(db) && r.Some? ==> r.value.id == session.value && r.value in db.users.Values
    ensures Valid(db) && r.None? ==> session.None? || forall u | u in db.users.Values :: u.id != session.value
  {
    if session.Some? && session.value in db.users then Some(db.users[session.value]) else None
  }

  // ---- key order ----

  /** `m` is the least key of `s`. */
  predicate IsLeast(m: nat, s: set<nat>)
  {
    m in s && forall x | x in s :: m <= x
  }

  /** Every finite set of keys has a least element. */
  lemma {:induction false} HasLeast(s: set<nat>)
    requires s != {}
    ensures exists m :: IsLeast(m, s)
    decreases |s|
  {
    var x :| x in s;
    if !IsLeast(x, s) {
      var y :| y in s && y < x;
      var rest := s - {x};
      assert y in rest;
      HasLeast(rest);
      var m :| IsLeast(m, rest);
      forall z | z in s
        ensures m <= z
      {
        if z != x {
          assert z in rest;
        }
      }
      assert IsLeast(m, s);
    }
  }

  /** The least key of a non-empty set of keys. */
  function Least(s: set<nat>): (m: nat)
    requires s != {}
    ensures IsLeast(m, s)
  {
    HasLeast(s);
    var m :| IsLeast(m, s);
    m
  }

  predicate StrictlyIncreasing(ks: seq<nat>)
  {
    forall i, j :: 0 <= i < j < |ks| ==> ks[i] < ks[j]
  }

  /** The keys of `s` in ascending order: the order a table scan by
      primary key yields. */
  function SortedKeys(s: set<nat>): (ks: seq<nat>)
    ensures StrictlyIncreasing(ks)
    ensures forall k :: k in ks <==> k in s
    ensures |ks| == |s|
    decreases |s|
  {
    if s == {} then []
    else
      var m := Least(s);
      var rest := SortedKeys(s - {m});
      assert forall k | k in rest :: m < k;
      [m] + rest
  }

  /** The rows of a table, in key order. */
  function RowsOf(cs: map<nat, Complaint>, ks: seq<nat>): (rows: seq<Complaint>)
    requires forall k :: k in ks ==> k in cs
    ensures |rows| == |ks|
    ensures forall i :: 0 <= i < |ks| ==> rows[i] == cs[ks[i]]
  {
    if ks == [] then [] else [cs[ks[0]]] + RowsOf(cs, ks[1..])
  }

  function AllComplaints(db: Db): seq<Complaint>
  {
    RowsOf(db.complaints, SortedKeys(db.complaints.Keys))
  }

  // ---- filtering by owner ----

  /** The rows of `rows` that belong to the user `uid`, in their order. */
  function OwnedBy(rows: seq<Complaint>, uid: nat): (r: seq<Complaint>)
    ensures forall c :: c in r <==> c in rows && c.userId == uid
    ensures multiset(r) <= multiset(rows)
    ensures |r| <= |rows|
  {
    if rows == [] then []
    else
      var rest := OwnedBy(rows[1..], uid);
      assert rows == [rows[0]] + rows[1..];
      if rows[0].userId == uid then [rows[0]] + rest else rest
  }

  // ---- ordering by creation time, newest first ----

  predicate NewestFirst(rows: seq<Complaint>)
  {
    forall i, j :: 0 <= i < j < |rows| ==> rows[i].createdAt >= rows[j].createdAt
  }

  /** No row of `rows` was created after `t`. */
  predicate NotNewerThan(rows: seq<Complaint>, t: nat)
  {
    forall x | x in rows :: x.createdAt <= t
  }

  /** A row put ahead of a newest-first list that has nothing newer than it. */
  lemma NewestFirstCons(x: Complaint, rows: seq<Complaint>)
    requires NewestFirst(rows) && NotNewerThan(rows, x.createdAt)
    ensures NewestFirst([x] + rows)
  {
    var r := [x] + rows;
    forall i, j | 0 <= i < j < |r|
      ensures r[i].createdAt >= r[j].createdAt
    {
      assert r[j] == rows[j - 1] && rows[j - 1] in rows;
      if i > 0 {
        assert r[i] == rows[i - 1];
      }
    }
  }

  /** The tail of a newest-first list is newest first and not newer than its head. */
  lemma NewestFirstTail(rows: seq<Complaint>)
    requires NewestFirst(rows) && rows != []
    ensures NewestFirst(rows[1..]) && NotNewerThan(rows[1..], rows[0].createdAt)
  {
    forall x | x in rows[1..]
      ensures x.createdAt <= rows[0].createdAt
    {
      var i :| 0 <= i < |rows| - 1 && rows[1..][i] == x;
      assert rows[1..][i] == rows[i + 1];
    }
  }

  /** Puts `c` into a newest-first list ahead of every row not newer than it. */
  function InsertByCreated(c: Complaint, rows: seq<Complaint>): (r: seq<Complaint>)
    requires NewestFirst(rows)
    ensures NewestFirst(r)
    ensures multiset(r) == multiset(rows) + multiset{c}
    ensures |r| == |rows| + 1
    ensures forall x | x in r :: x == c || x in rows
  {
    if rows == [] then [c]
    else if rows[0].createdAt <= c.createdAt then
      NewestFirstTail(rows);
      NewestFirstCons(c, rows);
      [c] + rows
    else
      NewestFirstTail(rows);
      var rest := InsertByCreated(c, rows[1..]);
      assert NotNewerThan(rest, rows[0].createdAt);
      NewestFirstCons(rows[0], rest);
      assert rows == [rows[0]] + rows[1..];
      [rows[0]] + rest
  }

  /** `ORDER BY created_at DESC`: the same rows, newest first. Rows created
      at the same instant may come in either order. */
  function SortNewestFirst(rows: seq<Complaint>): (r: seq<Complaint>)
    ensures NewestFirst(r)
    ensures multiset(r) == multiset(rows)
  {
    if rows == [] then []
    else
      assert rows == [rows[0]] + rows[1..];
      InsertByCreated(rows[0], SortNewestFirst(rows[1..]))
  }

  // ---- counting ----

  /** Whether a row is picked by a selection on its owner and on its
      status; an absent part selects every row. */
  predicate Selects(c: Complaint, owner: Option<nat>, status: Option<Status>)
  {
    (owner.Some? ==> c.userId == owner.value) && (status.Some? ==> c.status == status.value)
  }

  /** The number of rows of `rows` a selection picks. */
  function CountWhere(rows: seq<Complaint>, owner: Option<nat>, status: Option<Status>): (n: nat)
    ensures n <= |rows|
  {
    if rows == [] then 0
    else (if Selects(rows[0], owner, status) then 1 else 0) + CountWhere(rows[1..], owner, status)
  }

  /** The number of rows of `rows` in status `st`. */
  function CountStatus(rows: seq<Complaint>, st: Status): nat
  {
    CountWhere(rows, None, Some(st))
  }

  /** Counting over a list with one more row at its end. */
  lemma {:induction false} CountWhereSnoc(rows: seq<Complaint>, x: Complaint, owner: Option<nat>, status: Option<Status>)
    ensures CountWhere(rows + [x], owner, status) == CountWhere(rows, owner, status) + One(Selects(x, owner, status))
  {
    if rows == [] {
      assert [] + [x] == [x];
    } else {
      assert (rows + [x])[1..] == rows[1..] + [x];
      CountWhereSnoc(rows[1..], x, owner, status);
    }
  }

  /** The count of a status is the number of positions holding a row in
      that status. */
  lemma {:induction false} CountStatusIndices(rows: seq<Complaint>, st: Status)
    ensures CountStatus(rows, st) == |set i | 0 <= i < |rows| && rows[i].status == st|
    decreases |rows|
  {
    if rows != [] {
      var n := |rows| - 1;
      var p := rows[..n];
      assert rows == p + [rows[n]];
      CountWhereSnoc(p, rows[n], None, Some(st));
      CountStatusIndices(p, st);
      var before := set i | 0 <= i < |p| && p[i].status == st;
      var after := set i | 0 <= i < |rows| && rows[i].status == st;
      var last: set<int> := if rows[n].status == st then {n} else {};
      forall i
        ensures i in after <==> i in before + last
      {
        if 0 <= i < n {
          assert p[i] == rows[i];
        }
      }
      assert after == before + last;
      assert n !in before;
    }
  }

  /** The three statuses partition the rows: every row is counted under
      exactly one of them. */
  lemma {:induction false} CountsPartition(rows: seq<Complaint>)
    ensures CountStatus(rows, Pending) + CountStatus(rows, InProgress) + CountStatus(rows, Resolved) == |rows|
  {
    if rows != [] {
      CountsPartition(rows[1..]);
    }
  }

  /** Counting the rows an owner filter kept is counting the selection of
      that owner. */
  lemma {:induction false} CountOwned(rows: seq<Complaint>, uid: nat, status: Option<Status>)
    ensures CountWhere(OwnedBy(rows, uid), None, status) == CountWhere(rows, Some(uid), status)
    ensures |OwnedBy(rows, uid)| == CountWhere(rows, Some(uid), None)
  {
    if rows != [] {
      CountOwned(rows[1..], uid, status);
      var rest := OwnedBy(rows[1..], uid);
      if rows[0].userId == uid {
        assert ([rows[0]] + rest)[1..] == rest;
      }
    }
  }

  /** The keys of the complaints that a selection picks. */
  ghost function KeysWhere(cs: map<nat, Complaint>, owner: Option<nat>, status: Option<Status>): set<nat>
  {
    set k | k in cs && Selects(cs[k], owner, status)
  }

  /** The keys among `ks` whose rows a selection picks. */
  ghost function ScanKeysWhere(cs: map<nat, Complaint>, ks: seq<nat>, owner: Option<nat>, status: Option<Status>): set<nat>
    requires forall k | k in ks :: k in cs
  {
    set k | k in ks && Selects(cs[k], owner, status)
  }

  /** Splitting the first key off a scan over distinct keys. */
  lemma ScanKeysSplit(cs: map<nat, Complaint>, ks: seq<nat>, owner: Option<nat>, status: Option<Status>)
    requires forall k | k in ks :: k in cs
    requires StrictlyIncreasing(ks) && ks != []
    ensures StrictlyIncreasing(ks[1..])
    ensures ks[0] !in ScanKeysWhere(cs, ks[1..], owner, status)
    ensures ScanKeysWhere(cs, ks, owner, status) ==
              (if Selects(cs[ks[0]], owner, status) then {ks[0]} else {}) + ScanKeysWhere(cs, ks[1..], owner, status)
  {
    assert ks == [ks[0]] + ks[1..];
    forall j | 0 <= j < |ks| - 1
      ensures ks[1..][j] != ks[0]
    {
      assert ks[j + 1] == ks[1..][j];
    }
  }

  /** Counting the rows of a scan over distinct keys is counting the keys
      whose rows the selection picks. */
  lemma {:induction false} CountScan(cs: map<nat, Complaint>, ks: seq<nat>, owner: Option<nat>, status: Option<Status>)
    requires forall k | k in ks :: k in cs
    requires StrictlyIncreasing(ks)
    ensures CountWhere(RowsOf(cs, ks), owner, status) == |ScanKeysWhere(cs, ks, owner, status)|
  {
    if ks != [] {
      ScanKeysSplit(cs, ks, owner, status);
      CountScan(cs, ks[1..], owner, status);
      assert RowsOf(cs, ks)[1..] == RowsOf(cs, ks[1..]);
    }
  }

  /** A scan over every key of the table selects what the table selects. */
  lemma ScanAllKeys(cs: map<nat, Complaint>, owner: Option<nat>, status: Option<Status>)
    ensures ScanKeysWhere(cs, SortedKeys(cs.Keys), owner, status) == KeysWhere(cs, owner, status)
  {
    var ks := SortedKeys(cs.Keys);
    forall k
      ensures k in ScanKeysWhere(cs, ks, owner, status) <==> k in KeysWhere(cs, owner, status)
    {
      assert k in ks <==> k in cs.Keys;
    }
  }

  /** Counting the rows of the whole table is counting its keys. */
  lemma CountTable(db: Db, owner: Option<nat>, status: Option<Status>)
    ensures CountWhere(AllComplaints(db), owner, status) == |KeysWhere(db.complaints, owner, status)|
  {
    CountScan(db.complaints, SortedKeys(db.complaints.Keys), owner, status);
    ScanAllKeys(db.complaints, owner, status);
  }

  function One(b: bool): nat
  {
    if b then 1 else 0
  }

  lemma CardWithout(a: set<nat>, id: nat)
    ensures |a| == |a - {id}| + One(id in a)
  {
    if id in a {
      assert a == (a - {id}) + {id};
    } else {
      assert a - {id} == a;
    }
  }

  /** Whether the row under key `id` exists and a selection picks it, as a count. */
  function OneAt(cs: map<nat, Complaint>, id: nat, owner: Option<nat>, status: Option<Status>): nat
  {
    One(id in cs && Selects(cs[id], owner, status))
  }

  /** The two tables hold the same rows under every key but `id`. */
  ghost predicate SameExceptAt(cs: map<nat, Complaint>, cs2: map<nat, Complaint>, id: nat)
  {
    && (forall k | k != id :: k in cs2 <==> k in cs)
    && (forall k | k in cs && k != id :: cs2[k] == cs[k])
  }

  /** Overwriting or adding the row under `id` changes nothing else. */
  lemma SameExceptPut(cs: map<nat, Complaint>, id: nat, c: Complaint)
    ensures SameExceptAt(cs, cs[id := c], id)
  {
  }

  /** Deleting the row under `id` changes nothing else. */
  lemma SameExceptRemove(cs: map<nat, Complaint>, id: nat)
    ensures SameExceptAt(cs, cs - {id}, id)
  {
  }

  /** Two tables that differ at most at key `id` have selections that
      differ at most by that key. */
  lemma KeysWhereChangedAt(cs: map<nat, Complaint>, cs2: map<nat, Complaint>, id: nat,
                           owner: Option<nat>, status: Option<Status>)
    requires SameExceptAt(cs, cs2, id)
    ensures |KeysWhere(cs2, owner, status)| + OneAt(cs, id, owner, status)
            == |KeysWhere(cs, owner, status)| + OneAt(cs2, id, owner, status)
  {
    var a, a2 := KeysWhere(cs, owner, status), KeysWhere(cs2, owner, status);
    forall k
      ensures k in a2 - {id} <==> k in a - {id}
    {
      if k != id && k in cs {
        assert cs2[k] == cs[k];
      }
    }
    assert a2 - {id} == a - {id};
    CardWithout(a, id);
    CardWithout(a2, id);
  }
}
