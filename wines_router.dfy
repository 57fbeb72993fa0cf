/**
 * The request handlers mounted on `/wines`: GET and POST on `/`, and the
 * existence gate followed by GET, DELETE and PATCH on `/:wine_id`.
 * The HTML filter applied to outgoing text is the parameter `esc`.
 */
module WinesRouter {
  import opened Wrappers
  import opened Http
  import opened WinesService

  /** The object serializeWine builds: these eight keys and no others. */
  datatype WineJson = WineJson(
    wine_id: nat,
    wine_name: string,
    winery: string,
    varietal: string,
    vintage: string,
    rating: string,
    notes: string,
    user_id: int)

  /** A JSON response body of this router: one wine or a list of wines. */
  datatype Body = One(wine: WineJson) | Many(wines: seq<WineJson>)

  /** The keys of a request body that the handlers read. */
  datatype WineBody = WineBody(
    wine_name: Field<string>,
    winery: Field<string>,
    varietal: Field<string>,
    vintage: Field<string>,
    rating: Field<string>,
    notes: Field<string>,
    user_id: Field<int>,
    /** Never read: present so that `PatchOf` visibly drops a `wine_id` key sent in a PATCH body. */
    wine_id: Field<int>)

  datatype Verb = Get | Delete | Patch

  const QueryMessage := "Query must contain 'userId'"
  const NotFoundMessage := "Wine doesn't exist"
  const PatchMessage :=
    "Request body must contain at least one of 'wine_name', 'winery', 'varietal', 'vintage', 'rating', or 'notes'"

  // ---------------------------------------------------------------------
  // serializeWine
  // ---------------------------------------------------------------------

  /** The filter applied to a nullable column: it turns null into the empty string. */
  function EscapeNullable(esc: string -> string, s: Option<string>): string {
    if s.Some? then esc(s.value) else ""
  }

  /** The ids pass through; exactly the six text columns go through the filter. */
  function SerializeWine(w: Wine, esc: string -> string): (r: WineJson)
    ensures r.wine_id == w.wine_id && r.user_id == w.user_id
    ensures r.wine_name == esc(w.wine_name) && r.winery == esc(w.winery) &&
            r.varietal == esc(w.varietal) && r.rating == esc(w.rating)
    ensures r.vintage == EscapeNullable(esc, w.vintage) && r.notes == EscapeNullable(esc, w.notes)
  {
    WineJson(w.wine_id, esc(w.wine_name), esc(w.winery), esc(w.varietal),
             EscapeNullable(esc, w.vintage), esc(w.rating), EscapeNullable(esc, w.notes), w.user_id)
  }

  /** `wines.map(serializeWine)`. */
  function SerializeAll(ws: seq<Wine>, esc: string -> string): (r: seq<WineJson>)
    ensures |r| == |ws|
    ensures forall i :: 0 <= i < |ws| ==> r[i] == SerializeWine(ws[i], esc)
  {
    if ws == [] then [] else [SerializeWine(ws[0], esc)] + SerializeAll(ws[1..], esc)
  }

  // ---------------------------------------------------------------------
  // GET /?userId=
  // ---------------------------------------------------------------------

  /**
   * GET `/`: a missing or empty `userId` is refused before the table is
   * consulted; otherwise the response lists that user's rows, serialized,
   * in storage order.
   */
  function ListWines(rows: seq<Wine>, userId: Option<string>, esc: string -> string): (res: Response<Body>)
    ensures (userId.None? || userId == Some("")) <==> res == Fail(400, QueryMessage)
    ensures userId.Some? && userId.value != "" && ParseId(userId.value).None? ==> res == StorageFailure()
    ensures res.status == 200 <==> userId.Some? && ParseId(userId.value).Some?
    ensures res.status == 200 ==>
      var mine := GetWines(rows, ParseId(userId.value).value);
      res.location.None? && res.body.Json? && res.body.value.Many? && |res.body.value.wines| == |mine| &&
      forall i :: 0 <= i < |mine| ==> res.body.value.wines[i] == SerializeWine(mine[i], esc)
  {
    if userId.None? || userId.value == "" then
      Fail(400, QueryMessage)
    else
      match ParseId(userId.value)
      case None => StorageFailure()
      case Some(u) => Ok(Many(SerializeAll(GetWines(rows, u), esc)))
  }

  /** A user with no rows gets the empty list. */
  lemma ListWinesEmpty(rows: seq<Wine>, u: nat, esc: string -> string)
    requires forall i :: 0 <= i < |rows| ==> rows[i].user_id != u
    ensures ListWines(rows, Some(IdText(u)), esc) == Ok(Many([]))
  {
    ParseIdText(u);
  }

  // ---------------------------------------------------------------------
  // POST /
  // ---------------------------------------------------------------------

  /** `Object.entries(newWineRequired)`: the five required keys in declaration order. */
  function RequiredEntries(b: WineBody): seq<Entry> {
    [Entry("wine_name", b.wine_name.IsNullish()),
     Entry("winery", b.winery.IsNullish()),
     Entry("varietal", b.varietal.IsNullish()),
     Entry("rating", b.rating.IsNullish()),
     Entry("user_id", b.user_id.IsNullish())]
  }

  predicate HasRequired(b: WineBody) {
    b.wine_name.Given? && b.winery.Given? && b.varietal.Given? && b.rating.Given? && b.user_id.Given?
  }

  /**
   * The key the create handler reports: the first of wine_name, winery,
   * varietal, rating, user_id that is null or undefined. `vintage` and
   * `notes` never make it fail, and an empty string is not missing.
   */
  function MissingWineKey(b: WineBody): (r: Option<string>)
    ensures r.None? <==> HasRequired(b)
    ensures r == Some("wine_name") <==> b.wine_name.IsNullish()
    ensures r == Some("winery") <==> b.wine_name.Given? && b.winery.IsNullish()
    ensures r == Some("varietal") <==> b.wine_name.Given? && b.winery.Given? && b.varietal.IsNullish()
    ensures r == Some("rating") <==>
      b.wine_name.Given? && b.winery.Given? && b.varietal.Given? && b.rating.IsNullish()
    ensures r == Some("user_id") <==>
      b.wine_name.Given? && b.winery.Given? && b.varietal.Given? && b.rating.Given? && b.user_id.IsNullish()
  {
    var e := RequiredEntries(b);
    assert e[1..] == RequiredEntries(b)[1..];
    FirstNullishUnfold(e);
    FirstNullishUnfold(e[1..]);
    FirstNullishUnfold(e[2..]);
    FirstNullishUnfold(e[3..]);
    FirstNullishUnfold(e[4..]);
    assert e[4..][1..] == [];
    FirstNullish(e)
  }

  /** `newWine`: the seven columns taken from the body; undefined optional keys become NULL. */
  function NewWineOf(b: WineBody): NewWine
    requires HasRequired(b)
  {
    NewWine(b.wine_name.value, b.winery.value, b.varietal.value, b.vintage.ToOption(),
            b.rating.value, b.notes.ToOption(), b.user_id.value)
  }

  /**
   * POST `/`: 400 naming the first missing required key, with the table
   * untouched; otherwise one row is inserted and the response is 201 with
   * the Location of the new row and the serialized row as its body.
   */
  method PostWine(db: WinesTable, b: WineBody, originalUrl: string, esc: string -> string)
    returns (res: Response<Body>)
    requires db.Valid()
    modifies db
    ensures db.Valid()
    ensures MissingWineKey(b).Some? ==>
      res == Fail(400, MissingMessage(MissingWineKey(b).value)) &&
      db.rows == old(db.rows) && db.nextId == old(db.nextId)
    ensures MissingWineKey(b).None? ==>
      var row := Stored(NewWineOf(b), old(db.nextId));
      db.rows == old(db.rows) + [row] && db.nextId == old(db.nextId) + 1 &&
      res == Response(201, Json(One(SerializeWine(row, esc))), Some(JoinLocation(originalUrl, row.wine_id)))
  {
    var missing := FirstMissing(RequiredEntries(b));
    assert missing == MissingWineKey(b);
    if missing.Some? {
      return Fail(400, MissingMessage(missing.value));
    }
    var wine := db.InsertWine(NewWineOf(b));
    res := Response(201, Json(One(SerializeWine(wine, esc))), Some(JoinLocation(originalUrl, wine.wine_id)));
  }

  // ---------------------------------------------------------------------
  // /:wine_id
  // ---------------------------------------------------------------------

  /** The outcome of the `.all` gate: the row found, or the response that ends the request. */
  datatype Lookup = Found(id: nat, wine: Wine) | Halt(response: Response<Body>)

  /**
   * The `.all` gate: 404 when no row carries the id and 500 when the
   * storage cannot read the id as a number; otherwise the first row with
   * that id.
   */
  function Gate(rows: seq<Wine>, idText: string): (g: Lookup)
    ensures ParseId(idText).None? <==> g == Halt(StorageFailure())
    ensures g == Halt(Fail(404, NotFoundMessage)) <==>
      ParseId(idText).Some? && forall i :: 0 <= i < |rows| ==> rows[i].wine_id != ParseId(idText).value
    ensures g.Found? <==> ParseId(idText).Some? && GetById(rows, ParseId(idText).value).Some?
    ensures g.Found? ==>
      ParseId(idText) == Some(g.id) && g.wine in rows && g.wine.wine_id == g.id &&
      GetById(rows, g.id) == Some(g.wine)
  {
    match ParseId(idText)
    case None => Halt(StorageFailure())
    case Some(id) =>
      match GetById(rows, id)
      case None => Halt(Fail(404, NotFoundMessage))
      case Some(w) => Found(id, w)
  }

  /** `wineToUpdate`: only the six mutable keys; `user_id`, `wine_id` and any other key are dropped. */
  function PatchOf(b: WineBody): WinePatch {
    WinePatch(b.wine_name, b.winery, b.varietal, b.vintage, b.rating, b.notes)
  }

  function PatchValues(p: WinePatch): seq<Field<string>> {
    [p.wine_name, p.winery, p.varietal, p.vintage, p.rating, p.notes]
  }

  /**
   * `/:wine_id`: the gate runs first and alone decides 404 (or 500);
   * only then does the verb act. GET sends the row; DELETE removes it and
   * sends 204; PATCH refuses a body without a truthy mutable value with 400,
   * and otherwise updates the six columns it names and sends 204.
   */
  method WineRoute(db: WinesTable, verb: Verb, idText: string, b: WineBody, esc: string -> string)
    returns (res: Response<Body>)
    requires db.Valid()
    modifies db
    ensures db.Valid() && db.nextId == old(db.nextId)
    ensures Gate(old(db.rows), idText).Halt? ==>
      res == Gate(old(db.rows), idText).response && db.rows == old(db.rows)
    ensures Gate(old(db.rows), idText).Found? && verb == Get ==>
      res == Ok(One(SerializeWine(Gate(old(db.rows), idText).wine, esc))) && db.rows == old(db.rows)
    ensures Gate(old(db.rows), idText).Found? && verb == Delete ==>
      res == NoContent() && db.rows == WithoutId(old(db.rows), Gate(old(db.rows), idText).id)
    ensures Gate(old(db.rows), idText).Found? && verb == Patch && CountTruthy(PatchValues(PatchOf(b))) == 0 ==>
      res == Fail(400, PatchMessage) && db.rows == old(db.rows)
    ensures Gate(old(db.rows), idText).Found? && verb == Patch && CountTruthy(PatchValues(PatchOf(b))) > 0 ==>
      if ClearsRequired(PatchOf(b)) then res == StorageFailure() && db.rows == old(db.rows)
      else res == NoContent() && db.rows == Patched(old(db.rows), Gate(old(db.rows), idText).id, PatchOf(b))
  {
    var g := Gate(db.rows, idText);
    if g.Halt? {
      return g.response;
    }
    match verb
    case Get =>
      res := Ok(One(SerializeWine(g.wine, esc)));
    case Delete =>
      var _ := db.DeleteWine(g.id);
      res := NoContent();
    case Patch =>
      var patch := PatchOf(b);
      if CountTruthy(PatchValues(patch)) == 0 {
        return Fail(400, PatchMessage);
      }
      assert CountId(db.rows, g.id) > 0 by {
        var i :| 0 <= i < |db.rows| && db.rows[i] == g.wine;
      }
      var count := db.UpdateWine(g.id, patch);
      if count.None? {
        return StorageFailure();
      }
      res := NoContent();
  }

  // ---------------------------------------------------------------------
  // Properties across requests
  // ---------------------------------------------------------------------

  /** After DELETE of an id, the gate answers 404 for it. */
  lemma DeleteThenGetNotFound(rows: seq<Wine>, id: nat)
    ensures Gate(WithoutId(rows, id), IdText(id)) == Halt(Fail(404, NotFoundMessage))
  {
    ParseIdText(id);
    var rest := WithoutId(rows, id);
    forall i | 0 <= i < |rest| ensures rest[i].wine_id != id {
      assert rest[i] in rest;
    }
  }

  /**
   * A GET on the id of a freshly created row answers with the same body the
   * create answered with.
   */
  lemma GetAfterCreate(rows: seq<Wine>, nw: NewWine, id: nat)
    requires forall i :: 0 <= i < |rows| ==> rows[i].wine_id != id
    ensures Gate(rows + [Stored(nw, id)], IdText(id)) == Found(id, Stored(nw, id))
  {
    ParseIdText(id);
    var row := Stored(nw, id);
    var all := rows + [row];
    assert all[|rows|] == row;
    assert forall i :: 0 <= i < |rows| ==> all[i] == rows[i];
  }

  /**
   * After a PATCH that names only `wine_name`, a GET on the same id sends
   * the old row with just that column replaced.
   */
  lemma GetAfterNamePatch(rows: seq<Wine>, idText: string, name: string, esc: string -> string)
    requires Gate(rows, idText).Found?
    ensures var g := Gate(rows, idText);
      var p := WinePatch(Given(name), Undefined, Undefined, Undefined, Undefined, Undefined);
      Gate(Patched(rows, g.id, p), idText) == Found(g.id, g.wine.(wine_name := name))
  {
    var g := Gate(rows, idText);
    var p := WinePatch(Given(name), Undefined, Undefined, Undefined, Undefined, Undefined);
    GetByIdAfterPatch(rows, g.id, p);
    PatchOnlyName(g.wine, name);
  }
}
