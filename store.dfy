/**
 * The relational store and its connection pool, as one object: the five
 * tables, their AUTO_INCREMENT counters, the number of connections handed
 * out and not yet released, and the rows as they were when the open
 * transaction began. Each method is one statement or one connection call;
 * `fails` says whether the store rejects it (its reasons, such as a lost
 * connection or a violated constraint, are the store's own).
 */
module Store {

  import opened Wrappers
  import opened JsValues
  import opened Tables

  /** The next AUTO_INCREMENT value of each table. */
  datatype Counters = Counters(users: nat, profiles: nat, voitures: nat, clients: nat, ventes: nat)

  function NextOf(c: Counters, k: Kind): nat {
    match k
    case Voitures => c.voitures
    case Clients => c.clients
    case Ventes => c.ventes
  }

  function Bump(c: Counters, k: Kind): (r: Counters)
    ensures NextOf(r, k) == NextOf(c, k) + 1
    ensures forall k' :: k' != k ==> NextOf(r, k') == NextOf(c, k')
    ensures r.users == c.users && r.profiles == c.profiles
  {
    match k
    case Voitures => c.(voitures := c.voitures + 1)
    case Clients => c.(clients := c.clients + 1)
    case Ventes => c.(ventes := c.ventes + 1)
  }

  /** No two accounts share an email. */
  ghost predicate EmailsUnique(users: Table<User>) {
    forall i, j :: 0 <= i < j < |users| ==> users[i].row.email != users[j].row.email
  }

  /** The accounts that own a profile. */
  ghost function Owners(profiles: Table<Profile>): set<nat> {
    set i | 0 <= i < |profiles| :: profiles[i].row.userId
  }

  /** Every account has exactly one profile and every profile an account. */
  ghost predicate Paired(t: Tables) {
    && Ids(t.users) == Owners(t.profiles)
    && (forall i, j :: 0 <= i < j < |t.profiles| ==> t.profiles[i].row.userId != t.profiles[j].row.userId)
  }

  /** Every table in key order below its counter. */
  ghost predicate AllKeyed(t: Tables, next: Counters) {
    && Keyed(t.users, next.users) && Keyed(t.profiles, next.profiles)
    && Keyed(t.voitures, next.voitures) && Keyed(t.clients, next.clients) && Keyed(t.ventes, next.ventes)
  }

  /** The state a committed store is in. */
  ghost predicate Consistent(t: Tables, next: Counters) {
    AllKeyed(t, next) && EmailsUnique(t.users) && Paired(t)
  }

  class Database {
    var tables: Tables
    var next: Counters
    var checkedOut: nat
    var tx: Option<Tables>

    /** Outside a transaction the rows are consistent; inside one, the rows
        the transaction started from are. */
    ghost predicate Valid()
      reads this
    {
      && AllKeyed(tables, next)
      && (tx.None? ==> Consistent(tables, next))
      && (tx.Some? ==> Consistent(tx.value, next))
    }

    /** The store the model starts from, assumed empty, with every counter
        at 1. The bootstrap script creates the tables; rows a database
        already holds when it runs are not modelled. */
    constructor ()
      ensures Valid()
      ensures tables == Tables([], [], [], [], [])
      ensures next == Counters(1, 1, 1, 1, 1)
      ensures checkedOut == 0 && tx == None
    {
      tables := Tables([], [], [], [], []);
      next := Counters(1, 1, 1, 1, 1);
      checkedOut := 0;
      tx := None;
    }

    /** A pooled INSERT into `voitures`, `clients` or `ventes`; the new row
        gets the table's next id. */
    method InsertRow(k: Kind, row: Row, fails: bool) returns (id: Option<nat>)
      requires Valid()
      modifies this`tables, this`next
      ensures Valid()
      ensures fails ==> id == None && tables == old(tables) && next == old(next)
      ensures !fails ==>
        && id == Some(NextOf(old(next), k))
        && tables == WithRows(old(tables), k, Insert(RowsOf(old(tables), k), NextOf(old(next), k), row))
        && next == Bump(old(next), k)
    {
      if fails {
        return None;
      }
      var n := NextOf(next, k);
      InsertKeyed(RowsOf(tables, k), n, row);
      if tx.Some? {
        InsertKeyedAll(tx.value, next, k);
      }
      tables := WithRows(tables, k, Insert(RowsOf(tables, k), n, row));
      next := Bump(next, k);
      id := Some(n);
    }

    /** A pooled `UPDATE ... SET ... WHERE id = ?`. */
    method UpdateRow(k: Kind, id: nat, sets: seq<string>, values: seq<JsValue>, now: int, fails: bool)
      returns (ok: bool)
      requires Valid() && |sets| == |values|
      modifies this`tables
      ensures Valid()
      ensures ok == !fails
      ensures tables == if fails then old(tables)
        else WithRows(old(tables), k, Modify(RowsOf(old(tables), k), id, sets, values, now))
    {
      if fails {
        return false;
      }
      tables := WithRows(tables, k, Modify(RowsOf(tables, k), id, sets, values, now));
      ok := true;
    }

    /** A pooled `DELETE ... WHERE id = ?`. */
    method DeleteRow(k: Kind, id: nat, fails: bool) returns (ok: bool)
      requires Valid()
      modifies this`tables
      ensures Valid()
      ensures ok == !fails
      ensures tables == if fails then old(tables) else WithRows(old(tables), k, Delete(RowsOf(old(tables), k), id))
    {
      if fails {
        return false;
      }
      DeleteKeyed(RowsOf(tables, k), NextOf(next, k), id);
      tables := WithRows(tables, k, Delete(RowsOf(tables, k), id));
      ok := true;
    }

    /** `getConnection()`: a dedicated connection out of the pool. */
    method GetConnection(fails: bool) returns (ok: bool)
      modifies this`checkedOut
      ensures ok == !fails
      ensures checkedOut == if ok then old(checkedOut) + 1 else old(checkedOut)
    {
      ok := !fails;
      if ok {
        checkedOut := checkedOut + 1;
      }
    }

    /** `conn.release()`: the connection goes back to the pool. */
    method Release()
      requires checkedOut > 0
      modifies this`checkedOut
      ensures checkedOut == old(checkedOut) - 1
    {
      checkedOut := checkedOut - 1;
    }

    /** `conn.beginTransaction()`: the current rows are remembered. */
    method BeginTransaction(fails: bool) returns (ok: bool)
      requires Valid() && tx == None
      modifies this`tx
      ensures Valid()
      ensures ok == !fails
      ensures tx == if ok then Some(tables) else None
    {
      ok := !fails;
      if ok {
        tx := Some(tables);
      }
    }

    /** An INSERT into `users` on the transaction's connection. */
    method InsertUser(u: User, fails: bool) returns (id: Option<nat>)
      requires Valid() && tx.Some?
      modifies this`tables, this`next
      ensures Valid()
      ensures fails ==> id == None && tables == old(tables) && next == old(next)
      ensures !fails ==>
        && id == Some(old(next.users))
        && tables == old(tables).(users := Insert(old(tables.users), old(next.users), u))
        && next == old(next).(users := old(next.users) + 1)
    {
      if fails {
        return None;
      }
      var n := next.users;
      InsertKeyed(tables.users, n, u);
      tables := tables.(users := Insert(tables.users, n, u));
      next := next.(users := n + 1);
      id := Some(n);
    }

    /** An INSERT into `profiles` on the transaction's connection. */
    method InsertProfile(p: Profile, fails: bool) returns (id: Option<nat>)
      requires Valid() && tx.Some?
      modifies this`tables, this`next
      ensures Valid()
      ensures fails ==> id == None && tables == old(tables) && next == old(next)
      ensures !fails ==>
        && id == Some(old(next.profiles))
        && tables == old(tables).(profiles := Insert(old(tables.profiles), old(next.profiles), p))
        && next == old(next).(profiles := old(next.profiles) + 1)
    {
      if fails {
        return None;
      }
      var n := next.profiles;
      InsertKeyed(tables.profiles, n, p);
      tables := tables.(profiles := Insert(tables.profiles, n, p));
      next := next.(profiles := n + 1);
      id := Some(n);
    }

    /** `conn.commit()`: the transaction's rows become the committed state. */
    method Commit(fails: bool) returns (ok: bool)
      requires Valid() && tx.Some? && Consistent(tables, next)
      modifies this`tx
      ensures Valid()
      ensures ok == !fails
      ensures tx == if ok then None else old(tx)
    {
      ok := !fails;
      if ok {
        tx := None;
      }
    }

    /**
     * `conn.rollback()`: the rows go back to what they were when the
     * transaction began (a no-op without one). The AUTO_INCREMENT counters
     * are not rolled back, so an id handed out inside it is never reused.
     */
    method Rollback()
      requires Valid()
      modifies this`tables, this`tx
      ensures Valid() && tx == None
      ensures tables == if old(tx).Some? then old(tx).value else old(tables)
    {
      if tx.Some? {
        tables := tx.value;
        tx := None;
      }
    }
  }

  ghost predicate EmailFree(users: Table<User>, email: JsValue) {
    forall i :: 0 <= i < |users| ==> users[i].row.email != email
  }

  /**
   * Registration keeps the store consistent: a new account whose email no
   * account has, together with one profile owned by it, keeps the emails
   * unique and every account paired with exactly one profile.
   */
  lemma RegisterKeepsConsistent(t: Tables, next: Counters, u: User, p: Profile)
    requires Consistent(t, next)
    requires EmailFree(t.users, u.email)
    requires p.userId == next.users
    ensures Consistent(
      t.(users := Insert(t.users, next.users, u)).(profiles := Insert(t.profiles, next.profiles, p)),
      next.(users := next.users + 1).(profiles := next.profiles + 1))
  {
    var users := Insert(t.users, next.users, u);
    var profiles := Insert(t.profiles, next.profiles, p);
    InsertKeyed(t.users, next.users, u);
    InsertKeyed(t.profiles, next.profiles, p);
    assert forall i :: 0 <= i < |t.profiles| ==> profiles[i] == t.profiles[i];
    assert profiles[|t.profiles|].row.userId == next.users;
    assert Owners(profiles) == Owners(t.profiles) + {next.users} by {
      forall x | x in Owners(profiles) ensures x in Owners(t.profiles) + {next.users} {
        var i :| 0 <= i < |profiles| && profiles[i].row.userId == x;
        if i < |t.profiles| { assert t.profiles[i].row.userId == x; }
      }
      forall x | x in Owners(t.profiles) ensures x in Owners(profiles) {
        var i :| 0 <= i < |t.profiles| && t.profiles[i].row.userId == x;
        assert profiles[i].row.userId == x;
      }
    }
    forall i | 0 <= i < |t.profiles| ensures t.profiles[i].row.userId != next.users {
      assert t.profiles[i].row.userId in Ids(t.users);
      var j :| 0 <= j < |t.users| && t.users[j].id == t.profiles[i].row.userId;
    }
    assert forall i :: 0 <= i < |t.users| ==> users[i] == t.users[i];
  }

  /** The rows saved by a transaction stay keyed when a counter moves on. */
  lemma InsertKeyedAll(t: Tables, next: Counters, k: Kind)
    requires Consistent(t, next)
    ensures Consistent(t, Bump(next, k))
  {
  }
}
