/**
  The `users` table and the user handlers (registration, lookup, listing).
  Ids come from the table's serial sequence, modelled as `nextId`. The
  password hash is a parameter: the real one is bcrypt with a fresh salt,
  computed by a library outside this model.
 */
module Users {
  import opened Common

  datatype User = User(id: int, email: string, password: string, createdAt: Timestamp)

  /** The registration body: an e-mail address and a plaintext password. */
  datatype UserIn = UserIn(email: string, password: string)

  datatype UserTable = UserTable(rows: map<int, User>, nextId: int)

  /** Every row is stored under its own id, below the sequence's next value. */
  predicate Keyed(t: UserTable)
  {
    forall k :: k in t.rows ==> t.rows[k].id == k && k < t.nextId
  }

  /** The UNIQUE constraint on `users.email`. */
  predicate EmailsUnique(t: UserTable)
  {
    forall a, b :: a in t.rows && b in t.rows && t.rows[a].email == t.rows[b].email ==> a == b
  }

  predicate Valid(t: UserTable)
  {
    Keyed(t) && EmailsUnique(t)
  }

  predicate EmailTaken(t: UserTable, email: string)
  {
    exists k :: k in t.rows && t.rows[k].email == email
  }

  /** `create_user`: a taken e-mail gives 422 and changes nothing; otherwise
      one row is added holding the hashed password under a fresh id, answered
      with 201. */
  function Register(t: UserTable, input: UserIn, hash: string -> string, now: Timestamp): (r: Step<UserTable, User>)
    ensures EmailTaken(t, input.email) ==> r == Step(Fail(UnprocessableEntity), t)
    ensures !EmailTaken(t, input.email) ==>
      && r.out.Ok? && r.out.status == 201
      && r.out.value.email == input.email
      && r.out.value.password == hash(input.password)
      && r.state.rows == t.rows[r.out.value.id := r.out.value]
      && (Keyed(t) ==> r.out.value.id !in t.rows)
  {
    if EmailTaken(t, input.email) then
      Step(Fail(UnprocessableEntity), t)
    else
      var u := User(t.nextId, input.email, hash(input.password), now);
      Step(Ok(201, u), UserTable(t.rows[t.nextId := u], t.nextId + 1))
  }

  /** Registration keeps every table invariant, e-mail uniqueness included. */
  lemma RegisterKeepsValid(t: UserTable, input: UserIn, hash: string -> string, now: Timestamp)
    requires Valid(t)
    ensures Valid(Register(t, input, hash, now).state)
  {
    var t' := Register(t, input, hash, now).state;
    if !EmailTaken(t, input.email) {
      forall a, b | a in t'.rows && b in t'.rows && t'.rows[a].email == t'.rows[b].email
        ensures a == b
      {
        if a != t.nextId && b != t.nextId {
          assert t.rows[a].email == t.rows[b].email;
        }
      }
    }
  }

  /** Registering twice with one e-mail: the first succeeds, the second gets 422. */
  lemma RegisterTwiceRejected(t: UserTable, a: UserIn, b: UserIn, hash: string -> string, now1: Timestamp, now2: Timestamp)
    requires !EmailTaken(t, a.email)
    requires b.email == a.email
    ensures Register(t, a, hash, now1).out.Ok?
    ensures Register(Register(t, a, hash, now1).state, b, hash, now2).out == Fail(UnprocessableEntity)
  {
    var s := Register(t, a, hash, now1);
    assert s.state.rows[s.out.value.id].email == b.email;
  }

  /** `get_user`: 404 when no row has the id, otherwise that row with 200. */
  function GetUser(t: UserTable, id: int): (r: Outcome<User>)
    ensures r.Fail? <==> id !in t.rows
    ensures r.Fail? ==> r.error == NotFound
    ensures r.Ok? ==> r.status == 200 && r.value == t.rows[id]
  {
    if id in t.rows then Ok(200, t.rows[id]) else Fail(NotFound)
  }

  /** A user just registered can be fetched by the id the answer carries. */
  lemma RegisterThenGet(t: UserTable, input: UserIn, hash: string -> string, now: Timestamp)
    requires !EmailTaken(t, input.email)
    ensures var s := Register(t, input, hash, now);
      GetUser(s.state, s.out.value.id) == Ok(200, s.out.value)
  {
  }

  /** `get_all_users`: every stored row once, in the order the scan yields them. */
  function AllUsers(t: UserTable, order: seq<int>): (r: seq<User>)
    requires IsScan(order, t.rows.Keys)
    ensures |r| == |t.rows|
    ensures forall k :: k in t.rows ==> t.rows[k] in r
    ensures forall u :: u in r ==> u in t.rows.Values
  {
    ScanLength(order, t.rows.Keys);
    var r := seq(|order|, i requires 0 <= i < |order| => t.rows[order[i]]);
    assert forall k :: k in t.rows ==> t.rows[k] in r by {
      forall k | k in t.rows
        ensures t.rows[k] in r
      {
        var i :| 0 <= i < |order| && order[i] == k;
        assert r[i] == t.rows[k];
      }
    }
    assert forall u :: u in r ==> u in t.rows.Values by {
      forall u | u in r
        ensures u in t.rows.Values
      {
        var i :| 0 <= i < |r| && r[i] == u;
        assert order[i] in t.rows;
      }
    }
    r
  }
}
