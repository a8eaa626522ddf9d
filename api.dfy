/**
 * The request handlers of the API server, over the store of `Store` and the
 * credential libraries of `Auth`. Each handler answers with a `Reply`: the
 * status code and the JSON body the source sends.
 */
module Api {

  import opened Wrappers
  import opened JsValues
  import opened Tables
  import opened Auth
  import opened UpdateBuilder
  import opened InsertParams
  import opened Reporting
  import opened Store
  import Cors

  datatype Reply =
    | Fail(status: nat, error: string)   // 4xx with `{error}`
    | Internal                            // 500 with `{error: e.message}`; the message is the store's
    | TokenIssued(token: string)          // 200 `{token}`
    | Created(id: nat)                    // 201 `{id}`
    | Done                                // 200 `{ok: true}`
    | Report(stats: Stats)                // 200 the dashboard figures
    | Rows(rows: seq<Entry<Row>>)         // 200 a listing of vehicles or customers
    | Sales(sales: seq<SaleView>)         // 200 the joined sales
    | OriginRefused(message: string)      // 500 from the error handler, for a refused Origin

  /** The HTTP status each reply is sent with. */
  function Status(r: Reply): nat {
    match r
    case Fail(s, _) => s
    case Internal => 500
    case OriginRefused(_) => 500
    case Created(_) => 201
    case _ => 200
  }

  /**
   * Which store calls of one request the store rejects: the handler's
   * pooled statement (for registration, the email lookup), then the calls
   * registration makes on its dedicated connection.
   */
  datatype Faults = Faults(query: bool, connect: bool, begin: bool,
                           insertUser: bool, insertProfile: bool, commit: bool)

  const NoFaults := Faults(false, false, false, false, false, false)

  /** None of the calls on the dedicated connection fails. */
  predicate TxClean(f: Faults) {
    !f.connect && !f.begin && !f.insertUser && !f.insertProfile && !f.commit
  }

  const RegisterRequired: seq<string> := ["email", "password", "nom", "prenom"]
  const LoginRequired: seq<string> := ["email", "password"]

  /** The role every self-registered account gets. */
  const NewRole: string := "employe"

  // ---------------------------------------------------------------- accounts

  /** The account row registration inserts. */
  function NewUser(body: Body, crypto: Crypto, salt: nat): (u: User)
    requires Get(body, "password").JStr?
    ensures u.email == Get(body, "email") && u.role == NewRole
    ensures HashSound(crypto) ==> crypto.compare(Get(body, "password").s, u.passwordHash)
  {
    User(Get(body, "email"), crypto.hash(Get(body, "password").s, salt), NewRole)
  }

  /** The profile row registration inserts for account `userId`. */
  function NewProfile(body: Body, userId: nat): (p: Profile)
    ensures p.userId == userId && p.email == Get(body, "email")
    ensures p.nom == Get(body, "nom") && p.prenom == Get(body, "prenom")
    ensures Truthy(Get(body, "garage_id")) ==> p.garageId == Get(body, "garage_id")
    ensures !Truthy(Get(body, "garage_id")) ==> p.garageId == JNull
  {
    Profile(userId, Get(body, "nom"), Get(body, "prenom"), Get(body, "email"), Or(Get(body, "garage_id"), JNull))
  }

  /**
   * The transactional half of registration, on a dedicated connection: the
   * account and its profile are inserted and committed together, or, on any
   * failure, rolled back. The connection goes back to the pool either way.
   */
  method Enroll(db: Database, user: User, body: Body, faults: Faults) returns (userId: Option<nat>)
    requires db.Valid() && db.tx == None
    requires EmailFree(db.tables.users, user.email)
    modifies db
    ensures db.Valid() && db.tx == None && db.checkedOut == old(db.checkedOut)
    ensures userId.Some? <==> TxClean(faults)
    ensures userId.Some? ==>
      && userId.value == old(db.next.users)
      && db.tables == old(db.tables).(
           users := Insert(old(db.tables.users), userId.value, user),
           profiles := Insert(old(db.tables.profiles), old(db.next.profiles), NewProfile(body, userId.value)))
      && db.next == old(db.next).(users := userId.value + 1, profiles := old(db.next.profiles) + 1)
    ensures userId.None? ==> db.tables == old(db.tables)
  {
    var connected := db.GetConnection(faults.connect);
    if !connected {
      return None;
    }
    userId := InsertAccount(db, user, body, faults);
    if userId.None? {
      db.Rollback();
    }
    db.Release();
  }

  /**
   * `beginTransaction`, the two INSERTs and `commit`. On a failure the
   * transaction is either not open or still open on the rows it began with.
   */
  method InsertAccount(db: Database, user: User, body: Body, faults: Faults) returns (userId: Option<nat>)
    requires db.Valid() && db.tx == None
    requires EmailFree(db.tables.users, user.email)
    modifies db`tables, db`next, db`tx
    ensures db.Valid()
    ensures userId.Some? <==> !faults.begin && !faults.insertUser && !faults.insertProfile && !faults.commit
    ensures userId.Some? ==>
      && db.tx == None
      && userId.value == old(db.next.users)
      && db.tables == old(db.tables).(
           users := Insert(old(db.tables.users), userId.value, user),
           profiles := Insert(old(db.tables.profiles), old(db.next.profiles), NewProfile(body, userId.value)))
      && db.next == old(db.next).(users := userId.value + 1, profiles := old(db.next.profiles) + 1)
    ensures userId.None? ==> (db.tx == None && db.tables == old(db.tables)) || db.tx == Some(old(db.tables))
  {
    var began := db.BeginTransaction(faults.begin);
    if !began {
      return None;
    }
    var uid := InsertPair(db, user, body, faults);
    if uid.None? {
      return None;
    }
    var committed := db.Commit(faults.commit);
    userId := if committed then uid else None;
  }

  /** The two INSERTs inside the transaction; together they keep the store consistent. */
  method InsertPair(db: Database, user: User, body: Body, faults: Faults) returns (userId: Option<nat>)
    requires db.Valid() && db.tx == Some(db.tables)
    requires EmailFree(db.tables.users, user.email)
    modifies db`tables, db`next
    ensures db.Valid()
    ensures userId.Some? <==> !faults.insertUser && !faults.insertProfile
    ensures userId.Some? ==>
      && userId.value == old(db.next.users)
      && db.tables == old(db.tables).(
           users := Insert(old(db.tables.users), userId.value, user),
           profiles := Insert(old(db.tables.profiles), old(db.next.profiles), NewProfile(body, userId.value)))
      && db.next == old(db.next).(users := userId.value + 1, profiles := old(db.next.profiles) + 1)
      && Consistent(db.tables, db.next)
  {
    ghost var before, counters := db.tables, db.next;
    userId := db.InsertUser(user, faults.insertUser);
    if userId.None? {
      return;
    }
    var profile := NewProfile(body, userId.value);
    var pid := db.InsertProfile(profile, faults.insertProfile);
    if pid.None? {
      return None;
    }
    RegisterKeepsConsistent(before, counters, user, profile);
  }

  /**
   * What registration answers and leaves behind, from the rows `t` and the
   * counters `next` it starts on: 400 for a falsy required field, 500 when
   * the lookup fails, 409 for a registered email, and a token exactly when
   * the email is free, the password is a string and the transaction goes
   * through, in which case the account and its profile are the only new
   * rows. Any other outcome leaves the rows as they were.
   */
  ghost predicate RegisterSpec(body: Body, crypto: Crypto, salt: nat, now: int, faults: Faults,
                               t: Tables, next: Counters, reply: Reply, t': Tables, next': Counters)
  {
    && (reply == Fail(400, "Missing fields") <==> !AllPresent(body, RegisterRequired))
    && (AllPresent(body, RegisterRequired) && faults.query ==> reply == Internal)
    && (reply == Fail(409, "Email already registered") <==>
         && AllPresent(body, RegisterRequired) && !faults.query
         && FindByEmail(t.users, Get(body, "email")).Some?)
    && (reply.TokenIssued? <==>
         && AllPresent(body, RegisterRequired) && !faults.query && TxClean(faults)
         && FindByEmail(t.users, Get(body, "email")).None?
         && Get(body, "password").JStr?)
    && (reply.TokenIssued? ==>
         var userId := next.users;
         && reply.token == crypto.sign(Claims(userId, NewRole), now)
         && t' == t.(
              users := Insert(t.users, userId, NewUser(body, crypto, salt)),
              profiles := Insert(t.profiles, next.profiles, NewProfile(body, userId)))
         && next' == next.(users := userId + 1, profiles := next.profiles + 1))
    && (!reply.TokenIssued? ==> t' == t)
    && (!reply.TokenIssued? && reply != Internal ==> next' == next)
    && (|| reply.TokenIssued? || reply == Fail(400, "Missing fields")
        || reply == Fail(409, "Email already registered") || reply == Internal)
  }

  /**
   * `POST /api/register`: the required fields, then the email lookup on a
   * pooled connection, then the hash, then the transaction; the reply is a
   * token for the new account.
   */
  method Register(db: Database, body: Body, crypto: Crypto, salt: nat, now: int, faults: Faults)
    returns (reply: Reply)
    requires db.Valid() && db.tx == None
    modifies db
    ensures db.Valid() && db.tx == None && db.checkedOut == old(db.checkedOut)
    ensures RegisterSpec(body, crypto, salt, now, faults, old(db.tables), old(db.next), reply, db.tables, db.next)
  {
    var email, password := Get(body, "email"), Get(body, "password");
    if !(Truthy(email) && Truthy(password) && Truthy(Get(body, "nom")) && Truthy(Get(body, "prenom"))) {
      assert !AllPresent(body, RegisterRequired) by {
        assert !Truthy(Get(body, RegisterRequired[0])) || !Truthy(Get(body, RegisterRequired[1]))
          || !Truthy(Get(body, RegisterRequired[2])) || !Truthy(Get(body, RegisterRequired[3]));
      }
      return Fail(400, "Missing fields");
    }
    assert AllPresent(body, RegisterRequired);
    if faults.query {
      return Internal;
    }
    if FindByEmail(db.tables.users, email).Some? {
      return Fail(409, "Email already registered");
    }
    if !password.JStr? {
      return Internal;  // bcrypt.hash rejects a password that is not a string
    }
    var userId := Enroll(db, NewUser(body, crypto, salt), body, faults);
    reply := if userId.Some? then TokenIssued(crypto.sign(Claims(userId.value, NewRole), now)) else Internal;
  }

  /** `POST /api/login`. An unknown email and a wrong password get the same answer. */
  function Login(users: Table<User>, body: Body, crypto: Crypto, now: int, fails: bool): (r: Reply)
    ensures r == Fail(400, "Missing fields") <==> !AllPresent(body, LoginRequired)
    ensures AllPresent(body, LoginRequired) && fails ==> r == Internal
    ensures r == Fail(401, "Invalid credentials") <==>
      && AllPresent(body, LoginRequired) && !fails
      && var found := FindByEmail(users, Get(body, "email"));
         || found.None?
         || (Get(body, "password").JStr? &&
             !crypto.compare(Get(body, "password").s, found.value.row.passwordHash))
    ensures r.TokenIssued? <==>
      && AllPresent(body, LoginRequired) && !fails
      && var found := FindByEmail(users, Get(body, "email"));
         && found.Some? && Get(body, "password").JStr?
         && crypto.compare(Get(body, "password").s, found.value.row.passwordHash)
    ensures r.TokenIssued? ==>
      var user := FindByEmail(users, Get(body, "email")).value;
      r.token == crypto.sign(Claims(user.id, user.row.role), now)
    ensures || r.TokenIssued? || r == Fail(400, "Missing fields")
            || r == Fail(401, "Invalid credentials") || r == Internal
  {
    var email, password := Get(body, "email"), Get(body, "password");
    if !(Truthy(email) && Truthy(password)) then
      assert !AllPresent(body, LoginRequired) by {
        assert !Truthy(Get(body, LoginRequired[0])) || !Truthy(Get(body, LoginRequired[1]));
      }
      Fail(400, "Missing fields")
    else if fails then Internal
    else
      match FindByEmail(users, email)
      case None => Fail(401, "Invalid credentials")
      case Some(user) =>
        if !password.JStr? then Internal  // bcrypt.compare rejects a password that is not a string
        else if !crypto.compare(password.s, user.row.passwordHash) then Fail(401, "Invalid credentials")
        else TokenIssued(crypto.sign(Claims(user.id, user.row.role), now))
  }

  /**
   * An account just registered can log in with the password it registered
   * with, and the token it gets carries its new id and the `employe` role.
   */
  lemma LoginAfterRegister(users: Table<User>, userId: nat, body: Body, salt: nat, crypto: Crypto, now: int)
    requires HashSound(crypto)
    requires AllPresent(body, LoginRequired) && Get(body, "password").JStr?
    requires FindByEmail(users, Get(body, "email")).None?
    ensures Login(Insert(users, userId, NewUser(body, crypto, salt)), body, crypto, now, false)
            == TokenIssued(crypto.sign(Claims(userId, NewRole), now))
  {
    FindInserted(users, userId, NewUser(body, crypto, salt));
  }

  /** With a binding hash, any other password for a freshly registered
      account is refused like an unknown email. */
  lemma WrongPasswordRefused(users: Table<User>, userId: nat, body: Body, salt: nat, crypto: Crypto,
                             attempt: Body, now: int)
    requires HashBinding(crypto)
    requires Get(body, "password").JStr? && FindByEmail(users, Get(body, "email")).None?
    requires AllPresent(attempt, LoginRequired) && Get(attempt, "email") == Get(body, "email")
    requires Get(attempt, "password").JStr? && Get(attempt, "password") != Get(body, "password")
    ensures Login(Insert(users, userId, NewUser(body, crypto, salt)), attempt, crypto, now, false)
            == Fail(401, "Invalid credentials")
  {
    FindInserted(users, userId, NewUser(body, crypto, salt));
  }

  /** Once an email is registered, registering it again is refused. */
  lemma RegisteredEmailTaken(users: Table<User>, userId: nat, body: Body, crypto: Crypto, salt: nat)
    requires Get(body, "password").JStr?
    requires FindByEmail(users, Get(body, "email")).None?
    ensures FindByEmail(Insert(users, userId, NewUser(body, crypto, salt)), Get(body, "email")).Some?
  {
    FindInserted(users, userId, NewUser(body, crypto, salt));
  }

  // ---------------------------------------------------- vehicles, customers, sales

  /**
   * What a create answers and leaves behind: 400 with `missing` exactly when
   * a required field is falsy, 500 when the INSERT fails, and otherwise 201
   * with the next id of table `k`, whose row holds the columns `ps` binds
   * and the time `now`; only that table and its counter change, and only
   * on 201.
   */
  ghost predicate CreateSpec(k: Kind, body: Body, required: seq<string>, missing: string, ps: Params,
                             now: int, fails: bool, t: Tables, next: Counters,
                             reply: Reply, t': Tables, next': Counters)
  {
    && (reply == Fail(400, missing) <==> !AllPresent(body, required))
    && (AllPresent(body, required) && fails ==> reply == Internal)
    && (reply.Created? <==> AllPresent(body, required) && !fails)
    && (reply.Created? ==>
         && reply.id == NextOf(next, k)
         && t' == WithRows(t, k, Insert(RowsOf(t, k), reply.id, Row(Columns(ps, body), now)))
         && next' == Bump(next, k))
    && (!reply.Created? ==> t' == t && next' == next)
  }

  /**
   * `POST /api/voitures`, `/api/clients`, `/api/ventes`: a falsy required
   * field is refused with 400; otherwise one INSERT of the parameters `ps`
   * binds, and the reply carries the new row's id.
   */
  method CreateHandler(db: Database, k: Kind, body: Body, required: seq<string>, missing: string,
                       ps: Params, now: int, fails: bool) returns (reply: Reply)
    requires db.Valid()
    modifies db`tables, db`next
    ensures db.Valid()
    ensures CreateSpec(k, body, required, missing, ps, now, fails, old(db.tables), old(db.next), reply, db.tables, db.next)
  {
    if !AllPresent(body, required) {
      return Fail(400, missing);
    }
    var id := db.InsertRow(k, Row(Columns(ps, body), now), fails);
    reply := if id.Some? then Created(id.value) else Internal;
  }

  /**
   * What an update answers and leaves behind: 400 exactly when the body
   * mentions none of `fields`, otherwise 500 on a failed UPDATE and 200
   * after it; only a 200 changes anything, and only row `id` of table `k`.
   */
  ghost predicate UpdateSpec(k: Kind, id: nat, body: Body, fields: seq<string>, coerceFlag: bool,
                             now: int, fails: bool, t: Tables, reply: Reply, t': Tables)
  {
    && (reply == Fail(400, "No fields to update") <==> Present(fields, body) == [])
    && (Present(fields, body) != [] ==> reply == if fails then Internal else Done)
    && t' == if reply == Done then
         WithRows(t, k, Modify(RowsOf(t, k), id, Present(fields, body),
                               BoundValues(Present(fields, body), body, coerceFlag), now))
       else t
  }

  /**
   * `PUT /api/voitures/:id`, `/api/clients/:id`: the assignments for the
   * listed fields the body mentions; none is refused with 400, otherwise
   * one UPDATE. A missing id updates nothing and still succeeds.
   */
  method UpdateHandler(db: Database, k: Kind, id: nat, body: Body, fields: seq<string>, coerceFlag: bool,
                       now: int, fails: bool) returns (reply: Reply)
    requires db.Valid()
    modifies db`tables
    ensures db.Valid()
    ensures UpdateSpec(k, id, body, fields, coerceFlag, now, fails, old(db.tables), reply, db.tables)
  {
    var sets, values := BuildUpdate(fields, body, coerceFlag);
    if |sets| == 0 {
      return Fail(400, "No fields to update");
    }
    var ok := db.UpdateRow(k, id, sets, values, now, fails);
    reply := if ok then Done else Internal;
  }

  /** What a delete answers and leaves behind: 500 and no change when the
      DELETE fails, otherwise 200 and table `k` without row `id`. */
  ghost predicate DeleteSpec(k: Kind, id: nat, fails: bool, t: Tables, reply: Reply, t': Tables) {
    && reply == (if fails then Internal else Done)
    && t' == if fails then t else WithRows(t, k, Delete(RowsOf(t, k), id))
  }

  /** `DELETE /api/voitures/:id`, `/api/clients/:id`: succeeds whether or not the row exists. */
  method DeleteHandler(db: Database, k: Kind, id: nat, fails: bool) returns (reply: Reply)
    requires db.Valid()
    modifies db`tables
    ensures db.Valid()
    ensures DeleteSpec(k, id, fails, old(db.tables), reply, db.tables)
  {
    var ok := db.DeleteRow(k, id, fails);
    reply := if ok then Done else Internal;
  }

  /**
   * What a created vehicle does to the dashboard: one more vehicle, and one
   * more available exactly when the request's `disponible` was truthy.
   */
  lemma NewVoitureCounted(t: Tables, id: nat, body: Body, now: int)
    ensures var after := t.(voitures := Insert(t.voitures, id, Row(Columns(VoitureParams, body), now)));
      && ComputeStats(after).totalVoitures == ComputeStats(t).totalVoitures + 1
      && ComputeStats(after).voituresDisponibles ==
           ComputeStats(t).voituresDisponibles + if Truthy(Get(body, "disponible")) then 1 else 0
  {
    ParamNamesAgree();
    ColumnsSpec(VoitureParams, body);
    assert VoitureParams[8] == ("disponible", AsFlag);
    CountAvailableOfNew(t.voitures, id, Row(Columns(VoitureParams, body), now));
  }

  /** What a recorded sale does to the dashboard: one more sale, and the
      revenue grows by its price when the price is a number. */
  lemma NewVenteCounted(t: Tables, id: nat, body: Body, now: int)
    ensures var after := t.(ventes := Insert(t.ventes, id, Row(Columns(VenteParams, body), now)));
      && ComputeStats(after).totalVentes == ComputeStats(t).totalVentes + 1
      && ComputeStats(after).chiffreAffaires ==
           ComputeStats(t).chiffreAffaires + if Get(body, "prix_vente").JNum? then Get(body, "prix_vente").n else 0.0
  {
    VenteNamesDistinct();
    ColumnsSpec(VenteParams, body);
    assert VenteParams[4] == ("prix_vente", AsSent);
    RevenueOfNewSale(t.ventes, id, Row(Columns(VenteParams, body), now));
  }

  // --------------------------------------------------------------- routing

  datatype Route =
    | GetHealth
    | PostRegister(body: Body)
    | PostLogin(body: Body)
    | GetStats
    | GetVoitures
    | PostVoitures(body: Body)
    | PutVoitures(id: nat, body: Body)
    | DeleteVoitures(id: nat)
    | GetClients
    | PostClients(body: Body)
    | PutClients(id: nat, body: Body)
    | DeleteClients(id: nat)
    | GetVentes
    | PostVentes(body: Body)

  /** Every route but health, register and login sits behind `authMiddleware`. */
  predicate Protected(r: Route) {
    !(r.GetHealth? || r.PostRegister? || r.PostLogin?)
  }

  /** The routes that only read. */
  predicate ReadOnly(r: Route) {
    r.GetHealth? || r.PostLogin? || r.GetStats? || r.GetVoitures? || r.GetClients? || r.GetVentes?
  }

  /**
   * One request: the cors middleware, the auth gate for protected routes,
   * then the route's handler. A refused Origin ends the request in the
   * error handler with 500 before any route runs; a refused token gets 401
   * and never reaches the store; a request let through both gets the
   * outcome `RouteSpec` gives its route; the accounts change only through
   * registration.
   */
  method Serve(db: Database, origin: Option<string>, authorization: Option<string>, route: Route,
               crypto: Crypto, salt: nat, now: int, faults: Faults) returns (reply: Reply)
    requires db.Valid() && db.tx == None
    modifies db
    ensures db.Valid() && db.tx == None && db.checkedOut == old(db.checkedOut)
    ensures Cors.CheckOrigin(origin).Reject? ==>
      && reply == OriginRefused(Cors.RejectMessage) && Status(reply) == 500
      && db.tables == old(db.tables) && db.next == old(db.next)
    ensures Cors.CheckOrigin(origin).Allow? && Protected(route) && Authenticate(authorization, crypto, now).Failure? ==>
      && reply == Fail(401, Message(Authenticate(authorization, crypto, now).error))
      && db.tables == old(db.tables) && db.next == old(db.next)
    ensures ReadOnly(route) ==> db.tables == old(db.tables) && db.next == old(db.next)
    ensures !route.PostRegister? ==>
      db.tables.users == old(db.tables.users) && db.tables.profiles == old(db.tables.profiles)
    ensures Cors.CheckOrigin(origin).Allow? && route.PostLogin? ==>
      reply == Login(old(db.tables.users), route.body, crypto, now, faults.query)
    ensures Cors.CheckOrigin(origin).Allow? && route.GetStats? && Authenticate(authorization, crypto, now).Success? ==>
      reply == if faults.query then Internal else Report(ComputeStats(old(db.tables)))
    ensures Cors.CheckOrigin(origin).Allow? && (!Protected(route) || Authenticate(authorization, crypto, now).Success?) ==>
      RouteSpec(route, crypto, salt, now, faults, old(db.tables), old(db.next), reply, db.tables, db.next)
  {
    var decision := Cors.CheckOrigin(origin);
    if decision.Reject? {
      return OriginRefused(decision.message);
    }
    if Protected(route) {
      var auth := Authenticate(authorization, crypto, now);
      if auth.Failure? {
        return Fail(401, Message(auth.error));
      }
    }
    if route.PostRegister? {
      reply := Register(db, route.body, crypto, salt, now, faults);
    } else if ReadOnly(route) {
      reply := Query(db.tables, route, crypto, now, faults.query);
    } else {
      reply := Mutate(db, route, now, faults.query);
    }
  }

  /** The routes that only read, on the rows as they are. */
  function Query(t: Tables, route: Route, crypto: Crypto, now: int, fails: bool): (r: Reply)
    requires ReadOnly(route)
    ensures fails && !route.PostLogin? ==> r == Internal
    ensures route.PostLogin? ==> r == Login(t.users, route.body, crypto, now, fails)
    ensures route.GetStats? && !fails ==> r == Report(ComputeStats(t))
    ensures route.GetVoitures? && !fails ==> r == Rows(Listing(t.voitures))
    ensures route.GetClients? && !fails ==> r == Rows(Listing(t.clients))
    ensures route.GetVentes? && !fails ==> r == Sales(SalesListing(t))
    ensures route.GetHealth? && !fails ==> r == Done
  {
    if route.PostLogin? then Login(t.users, route.body, crypto, now, fails)
    else if fails then Internal
    else
      match route
      case GetHealth => Done
      case GetStats => Report(ComputeStats(t))
      case GetVoitures => Rows(Listing(t.voitures))
      case GetClients => Rows(Listing(t.clients))
      case GetVentes => Sales(SalesListing(t))
  }

  /**
   * What a write route answers and leaves behind: the create, update or
   * delete outcome with the route's table, its required fields, its 400
   * message, its parameter list and its updatable columns. Only `PUT
   * /api/voitures/:id` coerces `disponible` to 0 or 1.
   */
  ghost predicate WriteSpec(route: Route, now: int, fails: bool, t: Tables, next: Counters,
                            reply: Reply, t': Tables, next': Counters)
  {
    match route
    case PostVoitures(body) =>
      CreateSpec(Voitures, body, VoitureRequired, "Missing required fields", VoitureParams, now, fails, t, next, reply, t', next')
    case PutVoitures(id, body) =>
      UpdateSpec(Voitures, id, body, VoitureFields, true, now, fails, t, reply, t') && next' == next
    case DeleteVoitures(id) =>
      DeleteSpec(Voitures, id, fails, t, reply, t') && next' == next
    case PostClients(body) =>
      CreateSpec(Clients, body, ClientRequired, "Missing fields", ClientParams, now, fails, t, next, reply, t', next')
    case PutClients(id, body) =>
      UpdateSpec(Clients, id, body, ClientFields, false, now, fails, t, reply, t') && next' == next
    case DeleteClients(id) =>
      DeleteSpec(Clients, id, fails, t, reply, t') && next' == next
    case PostVentes(body) =>
      CreateSpec(Ventes, body, VenteRequired, "Missing fields", VenteParams, now, fails, t, next, reply, t', next')
    case _ => false
  }

  /**
   * What a request that gets past the auth gate answers and leaves behind:
   * registration's outcome, a read-only route's reply on unchanged rows, or
   * a write route's outcome.
   */
  ghost predicate RouteSpec(route: Route, crypto: Crypto, salt: nat, now: int, faults: Faults,
                            t: Tables, next: Counters, reply: Reply, t': Tables, next': Counters)
  {
    if route.PostRegister? then
      RegisterSpec(route.body, crypto, salt, now, faults, t, next, reply, t', next')
    else if ReadOnly(route) then
      reply == Query(t, route, crypto, now, faults.query) && t' == t && next' == next
    else
      WriteSpec(route, now, faults.query, t, next, reply, t', next')
  }

  /** A vehicle created through its route shows on the dashboard. */
  lemma CreatedVoitureCounted(body: Body, now: int, fails: bool, t: Tables, next: Counters,
                              reply: Reply, t': Tables, next': Counters)
    requires WriteSpec(PostVoitures(body), now, fails, t, next, reply, t', next') && reply.Created?
    ensures ComputeStats(t').totalVoitures == ComputeStats(t).totalVoitures + 1
    ensures ComputeStats(t').voituresDisponibles ==
      ComputeStats(t).voituresDisponibles + if Truthy(Get(body, "disponible")) then 1 else 0
  {
    assert t' == t.(voitures := Insert(t.voitures, reply.id, Row(Columns(VoitureParams, body), now)));
    NewVoitureCounted(t, reply.id, body, now);
  }

  /** A sale recorded through its route shows on the dashboard. */
  lemma CreatedVenteCounted(body: Body, now: int, fails: bool, t: Tables, next: Counters,
                            reply: Reply, t': Tables, next': Counters)
    requires WriteSpec(PostVentes(body), now, fails, t, next, reply, t', next') && reply.Created?
    ensures ComputeStats(t').totalVentes == ComputeStats(t).totalVentes + 1
    ensures ComputeStats(t').chiffreAffaires ==
      ComputeStats(t).chiffreAffaires + if Get(body, "prix_vente").JNum? then Get(body, "prix_vente").n else 0.0
  {
    assert t' == t.(ventes := Insert(t.ventes, reply.id, Row(Columns(VenteParams, body), now)));
    NewVenteCounted(t, reply.id, body, now);
  }

  /** The routes that write one statement on a pooled connection. */
  method Mutate(db: Database, route: Route, now: int, fails: bool) returns (reply: Reply)
    requires db.Valid() && !route.PostRegister? && !ReadOnly(route)
    modifies db`tables, db`next
    ensures db.Valid()
    ensures WriteSpec(route, now, fails, old(db.tables), old(db.next), reply, db.tables, db.next)
    ensures db.tables.users == old(db.tables.users) && db.tables.profiles == old(db.tables.profiles)
  {
    match route {
      case PostVoitures(body) =>
        reply := CreateHandler(db, Voitures, body, VoitureRequired, "Missing required fields", VoitureParams, now, fails);
      case PutVoitures(id, body) =>
        reply := UpdateHandler(db, Voitures, id, body, VoitureFields, true, now, fails);
      case DeleteVoitures(id) =>
        reply := DeleteHandler(db, Voitures, id, fails);
      case PostClients(body) =>
        reply := CreateHandler(db, Clients, body, ClientRequired, "Missing fields", ClientParams, now, fails);
      case PutClients(id, body) =>
        reply := UpdateHandler(db, Clients, id, body, ClientFields, false, now, fails);
      case DeleteClients(id) =>
        reply := DeleteHandler(db, Clients, id, fails);
      case PostVentes(body) =>
        reply := CreateHandler(db, Ventes, body, VenteRequired, "Missing fields", VenteParams, now, fails);
    }
  }

  /**
   * A new employee's first steps: registering, a second registration with
   * the same email, logging in, and a protected call with the login's token
   * before it expires. The first registration and the login issue tokens for
   * the new account with role `employe`, the second registration is refused
   * with 409, and the token lets the protected call through.
   */
  method Onboarding(db: Database, body: Body, crypto: Crypto, salt: nat, now: int, later: int)
    returns (first: Reply, second: Reply, login: Reply, gate: Result<Claims, AuthError>)
    requires db.Valid() && db.tx == None
    requires HashSound(crypto) && TokensSound(crypto)
    requires AllPresent(body, RegisterRequired) && Get(body, "password").JStr?
    requires FindByEmail(db.tables.users, Get(body, "email")).None?
    requires now <= later < now + TokenLifetime
    modifies db
    ensures first.TokenIssued? && login.TokenIssued?
    ensures second == Fail(409, "Email already registered")
    ensures gate.Success? && gate.value.role == NewRole && gate.value.userId == old(db.next.users)
  {
    var userId := db.next.users;
    ghost var users := db.tables.users;
    first := Register(db, body, crypto, salt, now, NoFaults);
    assert first.TokenIssued?;
    ghost var registered := Insert(users, userId, NewUser(body, crypto, salt));
    assert db.tables.users == registered;
    RegisteredEmailTaken(users, userId, body, crypto, salt);
    second := Register(db, body, crypto, salt, now, NoFaults);
    assert db.tables.users == registered;
    assert AllPresent(body, LoginRequired) by {
      assert Truthy(Get(body, RegisterRequired[0])) && Truthy(Get(body, RegisterRequired[1]));
    }
    LoginAfterRegister(users, userId, body, salt, crypto, now);
    login := Login(db.tables.users, body, crypto, now, false);
    IssuedTokenAuthenticates(crypto, Claims(userId, NewRole), now, later);
    gate := Authenticate(Some(BearerPrefix + login.token), crypto, later);
  }
}
