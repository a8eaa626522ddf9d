/**
 * The partial-update builder of `PUT /api/voitures/:id` and
 * `PUT /api/clients/:id`: a walk over a fixed column list that collects,
 * for every column the body mentions, the assignment and the value to bind.
 * `sets` holds the assigned columns (each stands for its `${f} = ?` clause)
 * and `values` the parameters bound to them.
 */
module UpdateBuilder {

  import opened JsValues
  import opened Tables

  const VoitureFields: seq<string> := [
    "garage_id", "marque", "modele", "annee", "prix", "kilometrage",
    "carburant", "etat", "disponible", "couleur", "description", "image_url"
  ]

  const ClientFields: seq<string> := ["garage_id", "nom", "prenom", "email", "telephone", "adresse"]

  /** The listed columns the body mentions (`f in req.body`), in list order. */
  function Present(fields: seq<string>, body: Body): (r: seq<string>)
    ensures |r| <= |fields|
    ensures forall i :: 0 <= i < |r| ==> r[i] in fields && r[i] in body
  {
    if fields == [] then []
    else
      var last := fields[|fields| - 1];
      Present(fields[..|fields| - 1], body) + (if last in body then [last] else [])
  }

  /** The parameter bound for column `f`: the body's value, except that the
      availability flag is coerced to 1 or 0 when `coerceFlag` is set. */
  function Bound(body: Body, f: string, coerceFlag: bool): (r: JsValue)
    ensures Truthy(r) <==> Truthy(Get(body, f))
    ensures coerceFlag && f == "disponible" ==> r == JNum(1.0) || r == JNum(0.0)
    ensures !(coerceFlag && f == "disponible") ==> r == Get(body, f)
  {
    var v := Get(body, f);
    if coerceFlag && f == "disponible" then Flag(v) else v
  }

  function BoundValues(cols: seq<string>, body: Body, coerceFlag: bool): (vs: seq<JsValue>)
    ensures |vs| == |cols|
  {
    seq(|cols|, i requires 0 <= i < |cols| => Bound(body, cols[i], coerceFlag))
  }

  /**
   * The loop of the update handlers. With `coerceFlag` it is the vehicle
   * loop (`if (f === 'disponible') v = v ? 1 : 0`); without, the customer
   * loop, which binds every value as it came.
   */
  method BuildUpdate(fields: seq<string>, body: Body, coerceFlag: bool)
    returns (sets: seq<string>, values: seq<JsValue>)
    ensures sets == Present(fields, body)
    ensures |values| == |sets|
    ensures values == BoundValues(sets, body, coerceFlag)
  {
    sets, values := [], [];
    for i := 0 to |fields|
      invariant sets == Present(fields[..i], body)
      invariant values == BoundValues(sets, body, coerceFlag)
    {
      var f := fields[i];
      assert fields[..i + 1][..i] == fields[..i];
      if f in body {
        sets := sets + [f];
        var v := body[f];
        if coerceFlag && f == "disponible" {
          v := if Truthy(v) then JNum(1.0) else JNum(0.0);
        }
        values := values + [v];
      }
    }
    assert fields[..|fields|] == fields;
  }

  /** Collecting over two lists one after the other is collecting over both. */
  lemma {:induction false} PresentAppend(a: seq<string>, b: seq<string>, body: Body)
    ensures Present(a + b, body) == Present(a, body) + Present(b, body)
    decreases |b|
  {
    if b == [] {
      assert a + b == a;
    } else {
      var b' := b[..|b| - 1];
      PresentAppend(a, b', body);
      assert (a + b)[..|a + b| - 1] == a + b';
    }
  }

  /** A column is collected exactly when it is listed and the body mentions it. */
  lemma {:induction false} PresentMembers(fields: seq<string>, body: Body)
    ensures forall c :: c in Present(fields, body) <==> c in fields && c in body
  {
    if fields != [] {
      var init := fields[..|fields| - 1];
      PresentMembers(init, body);
      assert fields == init + [fields[|fields| - 1]];
    }
  }

  /**
   * Order: a listed column the body mentions sits in the result at the index
   * given by the number of collected columns before it in the list, so the
   * result follows the list's order.
   */
  lemma PresentOrder(fields: seq<string>, body: Body, k: nat)
    requires k < |fields| && fields[k] in body
    ensures |Present(fields[..k], body)| < |Present(fields, body)|
    ensures Present(fields, body)[|Present(fields[..k], body)|] == fields[k]
  {
    assert fields[..k + 1][..k] == fields[..k];
    assert fields == fields[..k + 1] + fields[k + 1..];
    PresentAppend(fields[..k + 1], fields[k + 1..], body);
  }

  /** Distinct columns in the list give distinct assignments. */
  lemma {:induction false} PresentDistinct(fields: seq<string>, body: Body)
    requires Distinct(fields)
    ensures Distinct(Present(fields, body))
  {
    if fields != [] {
      var init := fields[..|fields| - 1];
      var last := fields[|fields| - 1];
      assert Distinct(init);
      PresentDistinct(init, body);
      PresentMembers(init, body);
      assert last !in init;
    }
  }

  lemma FieldListsDistinct()
    ensures Distinct(VoitureFields) && Distinct(ClientFields)
  {
  }

  /**
   * What the UPDATE does to the row: every listed column the body mentions
   * gets its bound value, and every other column keeps the value it had.
   */
  lemma UpdatedRow(cols: map<string, JsValue>, fields: seq<string>, body: Body, coerceFlag: bool)
    requires Distinct(fields)
    ensures var r := Assign(cols, Present(fields, body), BoundValues(Present(fields, body), body, coerceFlag));
      && (forall c :: c in r <==> c in cols || (c in fields && c in body))
      && (forall c :: c in fields && c in body ==> r[c] == Bound(body, c, coerceFlag))
      && (forall c :: c in cols && !(c in fields && c in body) ==> r[c] == cols[c])
  {
    var sets := Present(fields, body);
    var values := BoundValues(sets, body, coerceFlag);
    PresentMembers(fields, body);
    PresentDistinct(fields, body);
    AssignSpec(cols, sets, values);
    var r := Assign(cols, sets, values);
    forall c | c in fields && c in body ensures r[c] == Bound(body, c, coerceFlag) {
      var i :| 0 <= i < |sets| && sets[i] == c;
      assert values[i] == Bound(body, c, coerceFlag);
    }
  }
}
