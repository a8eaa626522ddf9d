/**
 * The positional parameter lists of the INSERT statements: each column is
 * bound either to the request field as sent, or to the field with a
 * default when it is falsy, or to the field's truthiness as 1 or 0.
 */
module InsertParams {

  import opened JsValues
  import opened Tables
  import opened UpdateBuilder

  /** How one request field becomes one bound parameter. */
  datatype Binding =
    | AsSent   // `f`
    | OrNull   // `f || null`
    | OrZero   // `f || 0`
    | AsFlag   // `f ? 1 : 0`

  function Bind(b: Binding, v: JsValue): (r: JsValue)
    ensures b.AsSent? ==> r == v
    ensures !b.AsSent? ==> r != JUndefined
    ensures b.OrNull? ==> r == if Truthy(v) then v else JNull
    ensures b.OrZero? ==> r == if Truthy(v) then v else JNum(0.0)
    ensures b.AsFlag? ==> r == if Truthy(v) then JNum(1.0) else JNum(0.0)
  {
    match b
    case AsSent => v
    case OrNull => Or(v, JNull)
    case OrZero => Or(v, JNum(0.0))
    case AsFlag => Flag(v)
  }

  type Params = seq<(string, Binding)>

  function Names(ps: Params): (names: seq<string>)
    ensures |names| == |ps|
    ensures forall i :: 0 <= i < |ps| ==> names[i] == ps[i].0
  {
    seq(|ps|, i requires 0 <= i < |ps| => ps[i].0)
  }

  /** The columns an INSERT writes, each with its bound value. */
  function Columns(ps: Params, body: Body): (r: map<string, JsValue>)
    ensures forall i :: 0 <= i < |ps| ==> ps[i].0 in r
  {
    if ps == [] then map[]
    else Columns(ps[1..], body)[ps[0].0 := Bind(ps[0].1, Get(body, ps[0].0))]
  }

  /** With distinct column names, the INSERT writes exactly the listed
      columns, and each holds its field bound by its rule. */
  lemma {:induction false} ColumnsSpec(ps: Params, body: Body)
    requires Distinct(Names(ps))
    ensures forall c :: c in Columns(ps, body) <==> c in Names(ps)
    ensures forall i :: 0 <= i < |ps| ==> Columns(ps, body)[ps[i].0] == Bind(ps[i].1, Get(body, ps[i].0))
  {
    if ps != [] {
      assert Names(ps[1..]) == Names(ps)[1..];
      ColumnsSpec(ps[1..], body);
      forall i | 1 <= i < |ps| ensures ps[i].0 != ps[0].0 {
        assert Names(ps)[0] != Names(ps)[i];
      }
      forall i | 1 <= i < |ps| ensures Columns(ps, body)[ps[i].0] == Bind(ps[i].1, Get(body, ps[i].0)) {
        assert ps[1..][i - 1] == ps[i];
      }
      assert Names(ps) == [ps[0].0] + Names(ps[1..]);
    }
  }

  /** When every field bound as sent is truthy, no column is `undefined`. */
  lemma {:induction false} ColumnsDefined(ps: Params, body: Body)
    requires forall i :: 0 <= i < |ps| && ps[i].1.AsSent? ==> Truthy(Get(body, ps[i].0))
    ensures forall c :: c in Columns(ps, body) ==> Columns(ps, body)[c] != JUndefined
  {
    if ps != [] {
      forall i | 0 <= i < |ps[1..]| && ps[1..][i].1.AsSent? ensures Truthy(Get(body, ps[1..][i].0)) {
        assert ps[1..][i] == ps[i + 1];
      }
      ColumnsDefined(ps[1..], body);
      assert ps[0].1.AsSent? ==> Truthy(Get(body, ps[0].0));
    }
  }

  /** Every field the list binds as sent is one of `required`. */
  predicate SentOnly(ps: Params, required: seq<string>) {
    forall i :: 0 <= i < |ps| && ps[i].1.AsSent? ==> ps[i].0 in required
  }

  /** `INSERT INTO voitures (...) VALUES (...)`. */
  const VoitureParams: Params := [
    ("garage_id", OrNull), ("marque", AsSent), ("modele", AsSent), ("annee", AsSent),
    ("prix", AsSent), ("kilometrage", OrZero), ("carburant", AsSent), ("etat", AsSent),
    ("disponible", AsFlag), ("couleur", OrNull), ("description", OrNull), ("image_url", OrNull)
  ]

  /** `INSERT INTO clients (...) VALUES (...)`. */
  const ClientParams: Params := [
    ("garage_id", AsSent), ("nom", AsSent), ("prenom", AsSent),
    ("email", OrNull), ("telephone", OrNull), ("adresse", OrNull)
  ]

  /** `INSERT INTO ventes (...) VALUES (...)`. */
  const VenteParams: Params := [
    ("voiture_id", AsSent), ("client_id", AsSent), ("employe_id", AsSent),
    ("garage_id", AsSent), ("prix_vente", AsSent), ("notes", OrNull)
  ]

  /** The fields whose falsiness each create handler refuses with 400. */
  const VoitureRequired: seq<string> := ["marque", "modele", "annee", "prix", "carburant", "etat"]
  const ClientRequired: seq<string> := ["garage_id", "nom", "prenom"]
  const VenteRequired: seq<string> := ["voiture_id", "client_id", "employe_id", "garage_id", "prix_vente"]

  /** The INSERT statements for vehicles and customers write the same
      columns their UPDATE builders may assign, each once. */
  lemma ParamNamesAgree()
    ensures Names(VoitureParams) == VoitureFields && Names(ClientParams) == ClientFields
    ensures Distinct(Names(VoitureParams)) && Distinct(Names(ClientParams))
  {
    FieldListsDistinct();
    assert Names(VoitureParams) == VoitureFields;
    assert Names(ClientParams) == ClientFields;
  }

  /** The sales INSERT writes each column once. */
  lemma VenteNamesDistinct()
    ensures Distinct(Names(VenteParams))
  {
    assert Names(VenteParams) == ["voiture_id", "client_id", "employe_id", "garage_id", "prix_vente", "notes"];
  }

  /** Each field an INSERT binds as sent is one the handler checked first. */
  lemma SentFieldsChecked()
    ensures SentOnly(VoitureParams, VoitureRequired)
    ensures SentOnly(ClientParams, ClientRequired)
    ensures SentOnly(VenteParams, VenteRequired)
  {
  }

  /** A request that passes the required-field check binds no `undefined`. */
  lemma {:induction false} RequiredDefined(ps: Params, required: seq<string>, body: Body)
    requires SentOnly(ps, required) && AllPresent(body, required)
    ensures forall c :: c in Columns(ps, body) ==> Columns(ps, body)[c] != JUndefined
  {
    forall i | 0 <= i < |ps| && ps[i].1.AsSent? ensures Truthy(Get(body, ps[i].0)) {
      var j :| 0 <= j < |required| && required[j] == ps[i].0;
    }
    ColumnsDefined(ps, body);
  }

  /** A vehicle created without mileage or availability is stored with
      mileage 0 and as not available. */
  lemma VoitureDefaults(body: Body)
    requires "kilometrage" !in body && "disponible" !in body
    ensures "kilometrage" in Columns(VoitureParams, body) && Columns(VoitureParams, body)["kilometrage"] == JNum(0.0)
    ensures "disponible" in Columns(VoitureParams, body) && Columns(VoitureParams, body)["disponible"] == JNum(0.0)
  {
    ParamNamesAgree();
    ColumnsSpec(VoitureParams, body);
    assert VoitureParams[5] == ("kilometrage", OrZero);
    assert VoitureParams[8] == ("disponible", AsFlag);
  }
}
