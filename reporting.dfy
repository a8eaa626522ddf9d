/**
 * The read side of the API: the `ORDER BY ... DESC` listings, the inner
 * join of sales with their customer and vehicle, and the dashboard figures
 * of `GET /api/stats`, all as functions of the current rows.
 */
module Reporting {

  import opened Wrappers
  import opened JsValues
  import opened Tables

  /** Ordered by `key`, largest first. */
  ghost predicate SortedDesc<T>(s: seq<T>, key: T -> int) {
    forall i, j :: 0 <= i < j < |s| ==> key(s[i]) >= key(s[j])
  }

  function InsertDesc<T>(x: T, s: seq<T>, key: T -> int): (r: seq<T>)
    requires SortedDesc(s, key)
    ensures SortedDesc(r, key)
    ensures multiset(r) == multiset(s) + multiset{x}
  {
    if s == [] then [x]
    else if key(x) >= key(s[0]) then [x] + s
    else
      var rest := InsertDesc(x, s[1..], key);
      var r := [s[0]] + rest;
      assert s == [s[0]] + s[1..];
      BoundedElements(rest, s[1..], x, key, key(s[0]));
      assert forall j :: 0 <= j < |rest| ==> r[j + 1] == rest[j];
      r
  }

  /** Rearranging elements keeps a bound that each of them meets. */
  lemma BoundedElements<T>(r: seq<T>, s: seq<T>, x: T, key: T -> int, b: int)
    requires multiset(r) == multiset(s) + multiset{x}
    requires key(x) <= b && forall k :: 0 <= k < |s| ==> key(s[k]) <= b
    ensures forall j :: 0 <= j < |r| ==> key(r[j]) <= b
  {
    forall j | 0 <= j < |r| ensures key(r[j]) <= b {
      assert r[j] in multiset(r);
      if r[j] != x {
        assert r[j] in multiset(s);
        var k :| 0 <= k < |s| && s[k] == r[j];
      }
    }
  }

  /** `ORDER BY key DESC`: the same rows, largest key first (the order of
      rows with equal keys is the store's and is left open). */
  function SortDesc<T>(s: seq<T>, key: T -> int): (r: seq<T>)
    ensures SortedDesc(r, key)
    ensures multiset(r) == multiset(s)
    ensures |r| == |s|
  {
    if s == [] then []
    else
      assert s == [s[0]] + s[1..];
      InsertDesc(s[0], SortDesc(s[1..], key), key)
  }

  /** The timestamp of a row: `updated_at` or `date_vente`. */
  function Stamp(e: Entry<Row>): int {
    e.row.stamp
  }

  /** `SELECT * FROM voitures|clients ORDER BY updated_at DESC`. */
  function Listing(t: Table<Row>): (r: seq<Entry<Row>>)
    ensures SortedDesc(r, Stamp) && multiset(r) == multiset(t)
  {
    SortDesc(t, Stamp)
  }

  /** A sale with the customer's name and the vehicle's make and model. */
  datatype SaleView = SaleView(
    sale: Entry<Row>,
    clientNom: JsValue, clientPrenom: JsValue,
    voitureMarque: JsValue, voitureModele: JsValue)

  function SaleDate(v: SaleView): int {
    v.sale.row.stamp
  }

  /** The row a sale's reference column points to in `t`, if any. */
  function Referenced(t: Table<Row>, sale: Row, column: string): Option<Row> {
    match AsId(Col(sale, column))
    case None => None
    case Some(id) => Find(t, id)
  }

  /** A sale has a partner in the join: its customer and its vehicle both exist. */
  predicate Joinable(sale: Row, clients: Table<Row>, voitures: Table<Row>) {
    Referenced(clients, sale, "client_id").Some? && Referenced(voitures, sale, "voiture_id").Some?
  }

  /**
   * `FROM ventes v JOIN clients c ON c.id = v.client_id JOIN voitures vt ON
   * vt.id = v.voiture_id`: one view per sale whose customer and vehicle both
   * exist, in the sales table's order.
   */
  function Join(ventes: Table<Row>, clients: Table<Row>, voitures: Table<Row>): (r: seq<SaleView>)
    ensures |r| <= |ventes|
    ensures forall i :: 0 <= i < |r| ==>
      && r[i].sale in ventes
      && Joinable(r[i].sale.row, clients, voitures)
      && r[i] == View(r[i].sale, clients, voitures)
  {
    if ventes == [] then []
    else
      var rest := Join(ventes[1..], clients, voitures);
      assert forall e :: e in ventes[1..] ==> e in ventes;
      if Joinable(ventes[0].row, clients, voitures) then [View(ventes[0], clients, voitures)] + rest else rest
  }

  /** The joined row of a sale: the sale and the display fields of its
      customer and vehicle. */
  function View(sale: Entry<Row>, clients: Table<Row>, voitures: Table<Row>): (v: SaleView)
    requires Joinable(sale.row, clients, voitures)
    ensures v.sale == sale
    ensures v.clientNom == Col(Referenced(clients, sale.row, "client_id").value, "nom")
    ensures v.clientPrenom == Col(Referenced(clients, sale.row, "client_id").value, "prenom")
    ensures v.voitureMarque == Col(Referenced(voitures, sale.row, "voiture_id").value, "marque")
    ensures v.voitureModele == Col(Referenced(voitures, sale.row, "voiture_id").value, "modele")
  {
    var c := Referenced(clients, sale.row, "client_id").value;
    var car := Referenced(voitures, sale.row, "voiture_id").value;
    SaleView(sale, Col(c, "nom"), Col(c, "prenom"), Col(car, "marque"), Col(car, "modele"))
  }

  /** The join of one sale: its view when its customer and vehicle exist,
      nothing otherwise. */
  lemma JoinOne(e: Entry<Row>, clients: Table<Row>, voitures: Table<Row>)
    ensures Join([e], clients, voitures) ==
      if Joinable(e.row, clients, voitures) then [View(e, clients, voitures)] else []
  {
    assert [e][1..] == [];
  }

  /** The join works sale by sale: joining two runs of sales is joining each
      in turn, so each sale appears at most once and in the sales' order. */
  lemma {:induction false} JoinAppend(a: Table<Row>, b: Table<Row>, clients: Table<Row>, voitures: Table<Row>)
    ensures Join(a + b, clients, voitures) == Join(a, clients, voitures) + Join(b, clients, voitures)
  {
    if a == [] {
      assert a + b == b;
    } else {
      assert (a + b)[0] == a[0];
      assert (a + b)[1..] == a[1..] + b;
      JoinAppend(a[1..], b, clients, voitures);
    }
  }

  /** The join drops no sale whose customer and vehicle both exist. */
  lemma JoinComplete(ventes: Table<Row>, clients: Table<Row>, voitures: Table<Row>, i: nat)
    requires i < |ventes| && Joinable(ventes[i].row, clients, voitures)
    ensures exists j :: 0 <= j < |Join(ventes, clients, voitures)| && Join(ventes, clients, voitures)[j].sale == ventes[i]
  {
    var before, after := ventes[..i], ventes[i + 1..];
    assert ventes == before + [ventes[i]] + after;
    JoinAppend(before + [ventes[i]], after, clients, voitures);
    JoinAppend(before, [ventes[i]], clients, voitures);
    JoinOne(ventes[i], clients, voitures);
    var j := |Join(before, clients, voitures)|;
    assert Join(ventes, clients, voitures)[j].sale == ventes[i];
  }

  /** `GET /api/ventes`: the joined sales, most recent first. */
  function SalesListing(t: Tables): (r: seq<SaleView>)
    ensures SortedDesc(r, SaleDate)
    ensures multiset(r) == multiset(Join(t.ventes, t.clients, t.voitures))
  {
    SortDesc(Join(t.ventes, t.clients, t.voitures), SaleDate)
  }

  /** The item of `recentVentes`: the selected sale columns and display names. */
  datatype RecentSale = RecentSale(
    id: nat, prixVente: JsValue, dateVente: int,
    clientNom: JsValue, clientPrenom: JsValue,
    voitureMarque: JsValue, voitureModele: JsValue)

  function Summary(v: SaleView): (r: RecentSale)
    ensures r.id == v.sale.id && r.dateVente == SaleDate(v)
    ensures r.clientNom == v.clientNom && r.clientPrenom == v.clientPrenom
    ensures r.voitureMarque == v.voitureMarque && r.voitureModele == v.voitureModele
  {
    RecentSale(v.sale.id, Col(v.sale.row, "prix_vente"), v.sale.row.stamp,
               v.clientNom, v.clientPrenom, v.voitureMarque, v.voitureModele)
  }

  function Summaries(s: seq<SaleView>): (r: seq<RecentSale>)
    ensures |r| == |s|
    ensures forall i :: 0 <= i < |s| ==> r[i] == Summary(s[i])
  {
    if s == [] then [] else [Summary(s[0])] + Summaries(s[1..])
  }

  const RecentLimit: nat := 5

  /** `ORDER BY v.date_vente DESC LIMIT 5` over the join. */
  function RecentSales(t: Tables): (r: seq<SaleView>)
    ensures |r| <= RecentLimit && |r| <= |SalesListing(t)|
    ensures r == SalesListing(t)[..|r|]
  {
    var sorted := SortDesc(Join(t.ventes, t.clients, t.voitures), SaleDate);
    sorted[..if |sorted| < RecentLimit then |sorted| else RecentLimit]
  }

  /** SUM over the sales of their price; an amount that is not a number adds nothing. */
  function Amount(r: Row): real {
    var v := Col(r, "prix_vente");
    if v.JNum? then v.n else 0.0
  }

  /** `COALESCE(SUM(prix_vente), 0)`. */
  function Revenue(ventes: Table<Row>): (r: real)
    ensures (forall i :: 0 <= i < |ventes| ==> Amount(ventes[i].row) >= 0.0) ==> r >= 0.0
  {
    if ventes == [] then 0.0 else Amount(ventes[0].row) + Revenue(ventes[1..])
  }

  predicate Available(e: Entry<Row>)
    ensures Available(e) ==> Truthy(Col(e.row, "disponible"))
  {
    Col(e.row, "disponible") == JNum(1.0)
  }

  /** `COUNT(*) ... WHERE disponible = 1`. */
  function CountAvailable(voitures: Table<Row>): (n: nat)
    ensures n <= |voitures|
    ensures n == |voitures| <==> forall i :: 0 <= i < |voitures| ==> Available(voitures[i])
  {
    if voitures == [] then 0
    else
      var rest := CountAvailable(voitures[1..]);
      assert forall i :: 1 <= i < |voitures| ==> voitures[i] == voitures[1..][i - 1];
      (if Available(voitures[0]) then 1 else 0) + rest
  }

  datatype Stats = Stats(
    totalVoitures: nat,
    voituresDisponibles: nat,
    totalClients: nat,
    totalVentes: nat,
    chiffreAffaires: real,
    recentVentes: seq<RecentSale>)

  /** The figures of `GET /api/stats`, computed from the current rows. */
  function ComputeStats(t: Tables): (s: Stats)
    ensures s.voituresDisponibles <= s.totalVoitures == |t.voitures|
    ensures s.totalClients == |t.clients| && s.totalVentes == |t.ventes|
    ensures t.ventes == [] ==> s.chiffreAffaires == 0.0
    ensures |s.recentVentes| <= RecentLimit
  {
    var recent := Summaries(RecentSales(t));
    Stats(|t.voitures|, CountAvailable(t.voitures), |t.clients|, |t.ventes|, Revenue(t.ventes), recent)
  }

  /** The revenue of two runs of sales is the sum of their revenues; in
      particular a new sale adds exactly its price. */
  lemma {:induction false} RevenueAppend(a: Table<Row>, b: Table<Row>)
    ensures Revenue(a + b) == Revenue(a) + Revenue(b)
  {
    if a != [] {
      assert (a + b)[1..] == a[1..] + b;
      RevenueAppend(a[1..], b);
    } else {
      assert a + b == b;
    }
  }

  lemma RevenueOfNewSale(ventes: Table<Row>, id: nat, sale: Row)
    ensures Revenue(Insert(ventes, id, sale)) == Revenue(ventes) + Amount(sale)
  {
    RevenueAppend(ventes, [Entry(id, sale)]);
  }

  /** Counting the available vehicles of two runs adds up. */
  lemma {:induction false} CountAvailableAppend(a: Table<Row>, b: Table<Row>)
    ensures CountAvailable(a + b) == CountAvailable(a) + CountAvailable(b)
  {
    if a != [] {
      assert (a + b)[1..] == a[1..] + b;
      CountAvailableAppend(a[1..], b);
    } else {
      assert a + b == b;
    }
  }

  /** A new vehicle adds one to the available count exactly when it is available. */
  lemma CountAvailableOfNew(voitures: Table<Row>, id: nat, row: Row)
    ensures CountAvailable(Insert(voitures, id, row)) ==
      CountAvailable(voitures) + if Available(Entry(id, row)) then 1 else 0
  {
    CountAvailableAppend(voitures, [Entry(id, row)]);
  }

  /**
   * `recentVentes`: at most five sales, most recent first, each a sale whose
   * customer and vehicle both exist, and no joined sale left out is more
   * recent than one kept.
   */
  lemma RecentSalesSpec(t: Tables)
    ensures var joined := Join(t.ventes, t.clients, t.voitures);
      var r := RecentSales(t);
      && |r| == (if |joined| < RecentLimit then |joined| else RecentLimit)
      && multiset(r) <= multiset(joined)
      && SortedDesc(r, SaleDate)
      && (forall i :: 0 <= i < |r| ==> r[i].sale in t.ventes && Joinable(r[i].sale.row, t.clients, t.voitures))
  {
    var joined := Join(t.ventes, t.clients, t.voitures);
    var r := RecentSales(t);
    RecentSalesDrawn(t);
    forall i | 0 <= i < |r| ensures r[i].sale in t.ventes && Joinable(r[i].sale.row, t.clients, t.voitures) {
      assert r[i] in multiset(joined);
      var j :| 0 <= j < |joined| && joined[j] == r[i];
    }
  }

  /** `LIMIT 5` keeps five of the sorted joined sales, or all of them when
      there are fewer. */
  lemma RecentSalesDrawn(t: Tables)
    ensures var joined := Join(t.ventes, t.clients, t.voitures);
      var r := RecentSales(t);
      && |r| == (if |joined| < RecentLimit then |joined| else RecentLimit)
      && multiset(r) <= multiset(joined)
  {
    var joined := Join(t.ventes, t.clients, t.voitures);
    var sorted := SortDesc(joined, SaleDate);
    var n := if |sorted| < RecentLimit then |sorted| else RecentLimit;
    assert RecentSales(t) == sorted[..n];
    PrefixIncluded(sorted, n);
  }

  /** A prefix takes its elements from the sequence. */
  lemma PrefixIncluded<T>(s: seq<T>, n: nat)
    requires n <= |s|
    ensures multiset(s[..n]) <= multiset(s)
  {
    assert s == s[..n] + s[n..];
  }

  /** When there are at most five joined sales, `recentVentes` keeps them all. */
  lemma RecentSalesKeepsFew(t: Tables)
    ensures var joined := Join(t.ventes, t.clients, t.voitures);
      |joined| <= RecentLimit ==> multiset(RecentSales(t)) == multiset(joined)
  {
    var joined := Join(t.ventes, t.clients, t.voitures);
    var sorted := SortDesc(joined, SaleDate);
    if |joined| <= RecentLimit {
      assert RecentSales(t) == sorted;
    }
  }

  /** In a sequence sorted largest first, whatever a prefix leaves out is
      no larger than anything the prefix keeps. */
  lemma PrefixDominates<T>(sorted: seq<T>, key: T -> int, n: nat)
    requires SortedDesc(sorted, key) && n <= |sorted|
    ensures forall x :: x in multiset(sorted) - multiset(sorted[..n]) ==>
      forall i :: 0 <= i < n ==> key(sorted[i]) >= key(x)
  {
    var rest := sorted[n..];
    assert sorted == sorted[..n] + rest;
    forall x | x in multiset(sorted) - multiset(sorted[..n])
      ensures forall i :: 0 <= i < n ==> key(sorted[i]) >= key(x)
    {
      assert x in multiset(rest);
      var k :| 0 <= k < |rest| && rest[k] == x;
      assert sorted[n + k] == x;
    }
  }

  /** Every joined sale that `recentVentes` leaves out is no more recent than
      any sale it keeps. */
  lemma RecentSalesAreTheLatest(t: Tables)
    ensures var r := RecentSales(t);
      forall x :: x in multiset(Join(t.ventes, t.clients, t.voitures)) - multiset(r) ==>
        forall i :: 0 <= i < |r| ==> SaleDate(r[i]) >= SaleDate(x)
  {
    var joined := Join(t.ventes, t.clients, t.voitures);
    var sorted := SortDesc(joined, SaleDate);
    var n := if |sorted| < RecentLimit then |sorted| else RecentLimit;
    assert RecentSales(t) == sorted[..n];
    PrefixDominates(sorted, SaleDate, n);
  }

  /**
   * Each `recentVentes` item shows a sale of the sales table: its id, price
   * and date, with the name of the customer its `client_id` names and the
   * make and model of the vehicle its `voiture_id` names.
   */
  lemma RecentVentesFields(t: Tables, i: nat)
    requires i < |ComputeStats(t).recentVentes|
    ensures var item := ComputeStats(t).recentVentes[i];
      exists e :: e in t.ventes && Joinable(e.row, t.clients, t.voitures) &&
        var c := Referenced(t.clients, e.row, "client_id").value;
        var car := Referenced(t.voitures, e.row, "voiture_id").value;
        && item.id == e.id && item.prixVente == Col(e.row, "prix_vente") && item.dateVente == e.row.stamp
        && item.clientNom == Col(c, "nom") && item.clientPrenom == Col(c, "prenom")
        && item.voitureMarque == Col(car, "marque") && item.voitureModele == Col(car, "modele")
  {
    var joined := Join(t.ventes, t.clients, t.voitures);
    RecentSalesSpec(t);
    var v := RecentSales(t)[i];
    assert v in multiset(joined);
    var j :| 0 <= j < |joined| && joined[j] == v;
    assert v == View(v.sale, t.clients, t.voitures);
    assert ComputeStats(t).recentVentes[i] == Summary(v);
  }
}
