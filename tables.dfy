/**
 * The relational store as in-memory tables. A table is its rows in
 * primary-key order, each row carrying the AUTO_INCREMENT id the store gave
 * it; the five tables of the schema and the statement-level operations the
 * handlers issue (INSERT, UPDATE ... WHERE id = ?, DELETE ... WHERE id = ?,
 * SELECT ... WHERE email = ?) are defined here.
 */
module Tables {

  import opened Wrappers
  import opened JsValues

  datatype Entry<R> = Entry(id: nat, row: R)

  /** Rows in primary-key order. */
  type Table<R> = seq<Entry<R>>

  /** An account: its login email, the bcrypt hash of its password and its role. */
  datatype User = User(email: JsValue, passwordHash: string, role: string)

  /** The personal details created with each account. */
  datatype Profile = Profile(userId: nat, nom: JsValue, prenom: JsValue, email: JsValue, garageId: JsValue)

  /**
   * A row of `voitures`, `clients` or `ventes`: its columns by name and the
   * store-assigned timestamp (`updated_at` for vehicles and customers,
   * `date_vente` for sales).
   */
  datatype Row = Row(cols: map<string, JsValue>, stamp: int)

  datatype Tables = Tables(
    users: Table<User>,
    profiles: Table<Profile>,
    voitures: Table<Row>,
    clients: Table<Row>,
    ventes: Table<Row>)

  /** The three tables the CRUD routes share one shape for. */
  datatype Kind = Voitures | Clients | Ventes

  function RowsOf(t: Tables, k: Kind): Table<Row> {
    match k
    case Voitures => t.voitures
    case Clients => t.clients
    case Ventes => t.ventes
  }

  function WithRows(t: Tables, k: Kind, rows: Table<Row>): (r: Tables)
    ensures RowsOf(r, k) == rows
    ensures forall k' :: k' != k ==> RowsOf(r, k') == RowsOf(t, k')
    ensures r.users == t.users && r.profiles == t.profiles
  {
    match k
    case Voitures => t.(voitures := rows)
    case Clients => t.(clients := rows)
    case Ventes => t.(ventes := rows)
  }

  /** A column's value; SQL NULL when the row has no such column. */
  function Col(r: Row, c: string): JsValue {
    if c in r.cols then r.cols[c] else JNull
  }

  /** Ids strictly ascending, each below the table's AUTO_INCREMENT counter,
      which starts at 1. */
  ghost predicate Keyed<R>(t: Table<R>, next: nat) {
    1 <= next &&
    (forall i :: 0 <= i < |t| ==> 1 <= t[i].id < next) &&
    (forall i, j :: 0 <= i < j < |t| ==> t[i].id < t[j].id)
  }

  /** The ids in a table. */
  ghost function Ids<R>(t: Table<R>): set<nat> {
    set i | 0 <= i < |t| :: t[i].id
  }

  /** `SELECT * FROM t WHERE id = ?`: the first row with that id. */
  function Find<R>(t: Table<R>, id: nat): (r: Option<R>)
    ensures r.None? <==> forall i :: 0 <= i < |t| ==> t[i].id != id
    ensures r.Some? ==> exists i :: 0 <= i < |t| && t[i] == Entry(id, r.value)
  {
    if t == [] then None
    else if t[0].id == id then Some(t[0].row)
    else
      var r := Find(t[1..], id);
      assert forall i :: 1 <= i < |t| ==> t[i] == t[1..][i - 1];
      r
  }

  /** INSERT with a store-assigned id: the new row goes last in key order. */
  function Insert<R>(t: Table<R>, id: nat, row: R): (r: Table<R>)
    ensures Ids(r) == Ids(t) + {id}
  {
    var r := t + [Entry(id, row)];
    assert forall i :: 0 <= i < |t| ==> r[i] == t[i];
    assert r[|t|].id == id;
    r
  }

  /** An insert keeps the table keyed and advances the counter past the new id. */
  lemma InsertKeyed<R>(t: Table<R>, next: nat, row: R)
    requires Keyed(t, next)
    ensures Keyed(Insert(t, next, row), next + 1)
  {
  }

  /** `DELETE FROM t WHERE id = ?`; no error when no row has that id. */
  function Delete<R>(t: Table<R>, id: nat): (r: Table<R>)
    ensures |r| <= |t|
  {
    if t == [] then []
    else (if t[0].id == id then [] else [t[0]]) + Delete(t[1..], id)
  }

  /** A delete keeps exactly the rows with other ids. */
  lemma {:induction false} DeleteContents<R>(t: Table<R>, id: nat)
    ensures forall i :: 0 <= i < |Delete(t, id)| ==> Delete(t, id)[i] in t && Delete(t, id)[i].id != id
    ensures forall i :: 0 <= i < |t| && t[i].id != id ==> t[i] in Delete(t, id)
  {
    if t != [] {
      DeleteContents(t[1..], id);
      var rest := Delete(t[1..], id);
      assert t == [t[0]] + t[1..];
      if t[0].id != id {
        assert Delete(t, id) == [t[0]] + rest;
      } else {
        assert Delete(t, id) == rest;
      }
      forall i | 1 <= i < |t| ensures t[i] == t[1..][i - 1] { }
    }
  }

  /** Deleting keeps every id between bounds that all ids stayed between. */
  lemma {:induction false} DeleteBounded<R>(t: Table<R>, id: nat, lo: int, hi: int)
    requires forall i :: 0 <= i < |t| ==> lo < t[i].id < hi
    ensures forall i :: 0 <= i < |Delete(t, id)| ==> lo < Delete(t, id)[i].id < hi
  {
    if t != [] {
      DeleteBounded(t[1..], id, lo, hi);
      var rest := Delete(t[1..], id);
      if t[0].id != id {
        assert Delete(t, id) == [t[0]] + rest;
      } else {
        assert Delete(t, id) == rest;
      }
    }
  }

  /** Deleting keeps key order: the survivors stay in the order they had. */
  lemma {:induction false} DeleteKeyed<R>(t: Table<R>, next: nat, id: nat)
    requires Keyed(t, next)
    ensures Keyed(Delete(t, id), next)
  {
    if t != [] {
      var tail := t[1..];
      assert Keyed(tail, next);
      DeleteKeyed(tail, next, id);
      var rest := Delete(tail, id);
      if t[0].id != id {
        DeleteBounded(tail, id, t[0].id, next);
        var d := [t[0]] + rest;
        assert Delete(t, id) == d;
        forall i, j | 0 <= i < j < |d| ensures d[i].id < d[j].id {
          assert d[j] == rest[j - 1];
          if i > 0 {
            assert d[i] == rest[i - 1];
          }
        }
        forall i | 0 <= i < |d| ensures 1 <= d[i].id < next {
          if i > 0 {
            assert d[i] == rest[i - 1];
          }
        }
      } else {
        assert Delete(t, id) == rest;
      }
    }
  }

  /** A second delete of the same id changes nothing. */
  lemma {:induction false} DeleteIdempotent<R>(t: Table<R>, id: nat)
    ensures Delete(Delete(t, id), id) == Delete(t, id)
  {
    if t != [] {
      DeleteIdempotent(t[1..], id);
      var rest := Delete(t[1..], id);
      if t[0].id != id {
        var d := [t[0]] + rest;
        assert Delete(t, id) == d;
        assert d[0] == t[0] && d[1..] == rest;
        assert Delete(d, id) == [t[0]] + Delete(rest, id);
      } else {
        assert Delete(t, id) == [] + rest == rest;
      }
    }
  }

  /** Deleting an id no row has leaves the table as it is. */
  lemma {:induction false} DeleteAbsent<R>(t: Table<R>, id: nat)
    requires forall i :: 0 <= i < |t| ==> t[i].id != id
    ensures Delete(t, id) == t
  {
    if t != [] {
      DeleteAbsent(t[1..], id);
      assert t == [t[0]] + t[1..];
    }
  }

  /**
   * `UPDATE t SET c1 = ?, c2 = ?, ... WHERE id = ?`: the assignments run left
   * to right over the row's columns.
   */
  function Assign(cols: map<string, JsValue>, sets: seq<string>, values: seq<JsValue>): (r: map<string, JsValue>)
    requires |sets| == |values|
    ensures r.Keys == cols.Keys + set i | 0 <= i < |sets| :: sets[i]
    decreases |sets|
  {
    if sets == [] then cols else Assign(cols[sets[0] := values[0]], sets[1..], values[1..])
  }

  ghost predicate Distinct(s: seq<string>) {
    forall i, j :: 0 <= i < j < |s| ==> s[i] != s[j]
  }

  /** With distinct columns, each assigned column holds its value and every
      other column keeps what it had. */
  lemma {:induction false} AssignSpec(cols: map<string, JsValue>, sets: seq<string>, values: seq<JsValue>)
    requires |sets| == |values| && Distinct(sets)
    decreases |sets|
    ensures forall c :: c in Assign(cols, sets, values) <==> c in cols || c in sets
    ensures forall i :: 0 <= i < |sets| ==> Assign(cols, sets, values)[sets[i]] == values[i]
    ensures forall c :: c in cols && c !in sets ==> Assign(cols, sets, values)[c] == cols[c]
  {
    if sets != [] {
      var cols' := cols[sets[0] := values[0]];
      AssignSpec(cols', sets[1..], values[1..]);
      var r := Assign(cols, sets, values);
      assert r == Assign(cols', sets[1..], values[1..]);
      forall i | 0 <= i < |sets| ensures r[sets[i]] == values[i] {
        if i == 0 {
          assert sets[0] !in sets[1..] by {
            forall j | 0 <= j < |sets[1..]| ensures sets[1..][j] != sets[0] {
              assert sets[1..][j] == sets[j + 1];
            }
          }
        } else {
          assert sets[i] == sets[1..][i - 1] && values[i] == values[1..][i - 1];
        }
      }
      assert forall c :: c in sets <==> c == sets[0] || c in sets[1..];
    }
  }

  /** The UPDATE statement over a table: every row with the id gets the
      assignments and the new timestamp, every other row is left alone. */
  function Modify(t: Table<Row>, id: nat, sets: seq<string>, values: seq<JsValue>, now: int): (r: Table<Row>)
    requires |sets| == |values|
    ensures |r| == |t|
    ensures forall i :: 0 <= i < |t| ==> r[i].id == t[i].id
    ensures forall i :: 0 <= i < |t| && t[i].id != id ==> r[i] == t[i]
    ensures forall i :: 0 <= i < |t| && t[i].id == id ==>
      r[i].row == Row(Assign(t[i].row.cols, sets, values), now)
  {
    if t == [] then []
    else
      var e := t[0];
      var head := if e.id == id then Entry(id, Row(Assign(e.row.cols, sets, values), now)) else e;
      [head] + Modify(t[1..], id, sets, values, now)
  }

  /** An update of an id no row has changes nothing. */
  lemma {:induction false} ModifyAbsent(t: Table<Row>, id: nat, sets: seq<string>, values: seq<JsValue>, now: int)
    requires |sets| == |values|
    requires forall i :: 0 <= i < |t| ==> t[i].id != id
    ensures Modify(t, id, sets, values, now) == t
  {
    var r := Modify(t, id, sets, values, now);
    assert forall i :: 0 <= i < |t| ==> r[i] == t[i];
  }

  /** `SELECT ... FROM users WHERE email = ?` and `rows[0]`: the first
      account, in key order, with that email. */
  function FindByEmail(users: Table<User>, email: JsValue): (r: Option<Entry<User>>)
    ensures r.None? <==> forall i :: 0 <= i < |users| ==> users[i].row.email != email
    ensures r.Some? ==> r.value.row.email == email
    ensures r.Some? ==>
      exists i ::
        && 0 <= i < |users| && users[i] == r.value
        && (forall j :: 0 <= j < i ==> users[j].row.email != email)
  {
    if users == [] then None
    else if users[0].row.email == email then Some(users[0])
    else
      var r := FindByEmail(users[1..], email);
      assert forall i :: 1 <= i < |users| ==> users[i] == users[1..][i - 1];
      r
  }

  /** A newly inserted account is what a lookup of its email finds, when no
      earlier account has that email. */
  lemma {:induction false} FindInserted(users: Table<User>, id: nat, u: User)
    requires FindByEmail(users, u.email).None?
    ensures FindByEmail(Insert(users, id, u), u.email) == Some(Entry(id, u))
  {
    if users != [] {
      FindInserted(users[1..], id, u);
      assert Insert(users, id, u)[1..] == Insert(users[1..], id, u);
    }
  }
}
