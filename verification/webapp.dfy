/**
  The web search endpoint (`POST /search`) and the image route
  (`GET /dui-images/<filename>`): request sanitising, the 400/500 decision
  tree, and the shaping of every result row (image probe and sex label).
  The filesystem, URL building and `secure_filename` are parameters.
 */
module WebApp {
  import opened Wrappers
  import opened Text
  import opened Python
  import GenderPredictor
  import Database

  /** A parsed JSON document. The keys of an object are distinct, as `json` keeps only the last value of a repeated key. */
  datatype Json =
    | JNull
    | JBool(b: bool)
    | JNumber(n: int)
    | JString(s: string)
    | JArray(items: seq<Json>)
    | JObject(members: seq<(string, Json)>)

  /** The request body as `request.get_json()` sees it. */
  datatype Body = Unparseable | Parsed(json: Json)

  /** Process configuration: the image directory, when the environment sets one. */
  datatype Config = Config(imageDirectory: Option<string>)

  datatype Payload =
    | Rows(rows: seq<Row>)
    | ErrorJson(message: string)
    | PlainText(message: string)
    | ServerErrorPage            // the framework's page for an exception the view does not catch
    | ImageFile(directory: string, name: string)

  datatype Response = Response(status: int, payload: Payload)

  /** The error a row raised while being shaped. */
  datatype ShapeError = DuiNotText

  const InvalidJsonMessage := "El cuerpo de la petición no es un JSON válido"
  const EmptyJsonMessage := "Petición JSON vacía o mal formada"
  const InternalErrorMessage := "Ocurrió un error interno en el servidor."
  const ImagesNotConfiguredMessage := "Ruta de imágenes no configurada en el servidor."
  const InvalidFilenameMessage := "Nombre de archivo no válido."

  /** The extensions probed, in order of preference. */
  const ImageExtensions: seq<string> := ["jpg", "jpeg", "png"]

  /** Python truthiness of a parsed JSON value. */
  predicate JsonTruthy(j: Json) {
    match j
    case JNull => false
    case JBool(b) => b
    case JNumber(n) => n != 0
    case JString(s) => s != ""
    case JArray(items) => items != []
    case JObject(members) => members != []
  }

  /** An image directory is configured when the variable is set and not empty. */
  predicate ImagesConfigured(cfg: Config) {
    cfg.imageDirectory.Some? && cfg.imageDirectory.value != ""
  }

  /** `url_for('serve_dui_image', filename=f)`, without percent-encoding. */
  function ImageUrl(filename: string): string {
    "/dui-images/" + filename
  }

  /**
    The search criteria taken from the request object: only non-empty
    string members, each stripped of surrounding whitespace, in order.
   */
  function SearchParams(members: seq<(string, Json)>): Database.Criteria {
    if |members| == 0 then []
    else
      var (key, value) := members[0];
      var rest := SearchParams(members[1..]);
      if value.JString? && value.s != "" then [(key, Str(Strip(value.s)))] + rest else rest
  }

  /**
    Every criterion comes from a non-empty string member and carries its
    stripped text; every non-empty string member yields such a criterion.
   */
  lemma {:induction false} SearchParamsSpec(members: seq<(string, Json)>)
    ensures |SearchParams(members)| <= |members|
    ensures forall e :: e in SearchParams(members) ==> e.1.Str? && e.1.s == Strip(e.1.s)
    ensures forall e :: e in SearchParams(members) ==>
      exists m :: m in members && m.0 == e.0 && m.1.JString? && m.1.s != "" && e.1 == Str(Strip(m.1.s))
    ensures forall m :: m in members && m.1.JString? && m.1.s != "" ==> (m.0, Str(Strip(m.1.s))) in SearchParams(members)
  {
    if |members| > 0 {
      SearchParamsSpec(members[1..]);
      assert forall m :: m in members[1..] ==> m in members;
      var (key, value) := members[0];
      if value.JString? && value.s != "" {
        StripIdempotent(value.s);
      }
      assert forall m :: m in members ==> m == members[0] || m in members[1..];
    }
  }

  /** The first file name `base.ext` that exists, trying the extensions in order. */
  function ProbeImage(base: string, exts: seq<string>, fileExists: string -> bool): (r: Option<string>)
    ensures r.None? <==> forall i :: 0 <= i < |exts| ==> !fileExists(base + "." + exts[i])
    ensures r.Some? ==> exists i :: 0 <= i < |exts| && r.value == base + "." + exts[i] &&
                          fileExists(r.value) && forall j :: 0 <= j < i ==> !fileExists(base + "." + exts[j])
  {
    if |exts| == 0 then None
    else if fileExists(base + "." + exts[0]) then Some(base + "." + exts[0])
    else
      var r := ProbeImage(base, exts[1..], fileExists);
      assert forall i :: 1 <= i < |exts| ==> exts[i] == exts[1..][i - 1];
      if r.Some? then
        var k :| 0 <= k < |exts[1..]| && r.value == base + "." + exts[1..][k]
          && fileExists(r.value) && forall j :: 0 <= j < k ==> !fileExists(base + "." + exts[1..][j]);
        assert r.value == base + "." + exts[k + 1];
        r
      else r
  }

  /** The displayed sex: `F` and `M` get their labels; anything else is inferred from the name. */
  function SexLabel(row: Row): string {
    var raw := Get(row, "Sexo");
    if raw == Str("F") then "Femenino"
    else if raw == Str("M") then "Masculino"
    else GenderPredictor.Label(GenderPredictor.InferGender(Get(row, "NombreCompleto")))
  }

  /**
    One iteration of the shaping loop: attach `imagen_url` for the first
    existing image of the row's stripped `Dui`, when images are configured
    and `Dui` is truthy, and replace `Sexo` by its display label. A truthy
    `Dui` that is not text cannot be stripped and raises.
   */
  function ShapeRow(cfg: Config, fileExists: string -> bool, row: Row): (r: Result<Row, ShapeError>)
    ensures r.Failure? <==> ImagesConfigured(cfg) && Truthy(Get(row, "Dui")) && !Get(row, "Dui").Str?
    ensures r.Success? ==> r.value.Keys - {"imagen_url", "Sexo"} == row.Keys - {"imagen_url", "Sexo"}
    ensures r.Success? ==> forall k :: k in row && k != "imagen_url" && k != "Sexo" ==> k in r.value && r.value[k] == row[k]
    ensures r.Success? ==> "Sexo" in r.value && r.value["Sexo"] == Str(SexLabel(row))
    ensures r.Success? && (ImagesConfigured(cfg) && Truthy(Get(row, "Dui")) && Get(row, "Dui").Str?
                           && ProbeImage(Strip(Get(row, "Dui").s), ImageExtensions, fileExists).Some?) ==>
      && "imagen_url" in r.value
      && r.value["imagen_url"] == Str(ImageUrl(ProbeImage(Strip(Get(row, "Dui").s), ImageExtensions, fileExists).value))
  {
    var dui := Get(row, "Dui");
    if ImagesConfigured(cfg) && Truthy(dui) && !dui.Str? then Failure(DuiNotText)
    else
      var withImage :=
        if ImagesConfigured(cfg) && Truthy(dui) then
          match ProbeImage(Strip(dui.s), ImageExtensions, fileExists)
          case Some(f) => row["imagen_url" := Str(ImageUrl(f))]
          case None => row
        else row;
      Success(withImage["Sexo" := Str(SexLabel(row))])
  }

  /** The shaping loop: every row shaped, in order, or the first error. */
  function ShapeRows(cfg: Config, fileExists: string -> bool, rows: seq<Row>): (r: Result<seq<Row>, ShapeError>)
    ensures r.Success? <==> forall i :: 0 <= i < |rows| ==> ShapeRow(cfg, fileExists, rows[i]).Success?
    ensures r.Success? ==> |r.value| == |rows|
    ensures r.Success? ==> forall i :: 0 <= i < |rows| ==> r.value[i] == ShapeRow(cfg, fileExists, rows[i]).value
  {
    if |rows| == 0 then Success([])
    else
      match ShapeRow(cfg, fileExists, rows[0])
      case Failure(e) => Failure(e)
      case Success(first) =>
        match ShapeRows(cfg, fileExists, rows[1..])
        case Failure(e) => Failure(e)
        case Success(rest) => Success([first] + rest)
  }

  /**
    The body of `POST /search` once the request holds a non-empty JSON
    object: 200 with the shaped rows, or the generic 500 message when the
    search or the shaping fails; the store's error detail is never returned.
    `h` selects `search_in_db` as written (`AppendThenParse`) or as
    intended (`ParseThenAppend`).
   */
  function SearchObject(cfg: Config, h: Database.AgeHandling, members: seq<(string, Json)>, store: Database.Store, fileExists: string -> bool): (resp: Response)
    ensures resp.status in {200, 500}
    ensures resp.status == 500 ==> resp.payload == ErrorJson(InternalErrorMessage)
    ensures resp.status == 200 ==> resp.payload.Rows?
  {
    match Database.SearchBy(SearchParams(members), h, store)
    case Failure(_) => Response(500, ErrorJson(InternalErrorMessage))
    case Success(rows) =>
      match ShapeRows(cfg, fileExists, rows)
      case Failure(_) => Response(500, ErrorJson(InternalErrorMessage))
      case Success(shaped) => Response(200, Rows(shaped))
  }

  /**
    The search succeeds exactly when the store answers and every row can be
    shaped; it then returns the shaped rows.
   */
  lemma SearchObjectOutcome(cfg: Config, h: Database.AgeHandling, members: seq<(string, Json)>, store: Database.Store, fileExists: string -> bool)
    ensures var resp := SearchObject(cfg, h, members, store, fileExists);
      var found := Database.SearchBy(SearchParams(members), h, store);
      && (resp.status == 200 <==> found.Success? && ShapeRows(cfg, fileExists, found.value).Success?)
      && (resp.status == 200 ==> resp.payload == Rows(ShapeRows(cfg, fileExists, found.value).value))
  {
  }

  /**
    `POST /search`: 400 for an unparseable or falsy body (an empty object
    included); an uncaught 500 for a truthy body that is not an object;
    otherwise the object is searched.
   */
  function SearchEndpoint(cfg: Config, h: Database.AgeHandling, body: Body, store: Database.Store, fileExists: string -> bool): (resp: Response)
    ensures resp.status == 400 <==> body.Unparseable? || !JsonTruthy(body.json)
    ensures resp.status == 400 ==> resp.payload == ErrorJson(if body.Unparseable? then InvalidJsonMessage else EmptyJsonMessage)
    ensures resp.payload == ServerErrorPage <==> body.Parsed? && JsonTruthy(body.json) && !body.json.JObject?
    ensures body.Parsed? && body.json.JObject? && body.json.members != [] ==>
      resp == SearchObject(cfg, h, body.json.members, store, fileExists)
  {
    match body
    case Unparseable => Response(400, ErrorJson(InvalidJsonMessage))
    case Parsed(data) =>
      if !JsonTruthy(data) then Response(400, ErrorJson(EmptyJsonMessage))
      else if !data.JObject? then Response(500, ServerErrorPage)
      else SearchObject(cfg, h, data.members, store, fileExists)
  }

  /**
    `GET /dui-images/<filename>`: 500 when no image directory is configured;
    400 unless the sanitised name is non-empty and equal to the requested
    one; otherwise the file is served from the image directory. The 200
    stands for whatever `send_from_directory` answers, including its 404
    for a safe name whose file does not exist.
   */
  function ServeImage(cfg: Config, filename: string, secureFilename: string -> string): (resp: Response)
    ensures !ImagesConfigured(cfg) ==> resp == Response(500, PlainText(ImagesNotConfiguredMessage))
    ensures ImagesConfigured(cfg) && (secureFilename(filename) == "" || secureFilename(filename) != filename)
      ==> resp == Response(400, PlainText(InvalidFilenameMessage))
    ensures resp.status == 200 <==> ImagesConfigured(cfg) && filename != "" && secureFilename(filename) == filename
    ensures resp.status == 200 ==> resp.payload == ImageFile(cfg.imageDirectory.value, filename)
  {
    if !ImagesConfigured(cfg) then Response(500, PlainText(ImagesNotConfiguredMessage))
    else
      var safe := secureFilename(filename);
      if safe == "" || safe != filename then Response(400, PlainText(InvalidFilenameMessage))
      else Response(200, ImageFile(cfg.imageDirectory.value, safe))
  }

  /** Criteria are collected member by member: the result for two runs of members concatenates. */
  lemma {:induction false} SearchParamsAppend(a: seq<(string, Json)>, b: seq<(string, Json)>)
    ensures SearchParams(a + b) == SearchParams(a) + SearchParams(b)
  {
    if |a| > 0 {
      assert (a + b)[1..] == a[1..] + b;
      SearchParamsAppend(a[1..], b);
    } else {
      assert a + b == b;
    }
  }

  /** The criteria a single member contributes: none, or one whose value is stripped. */
  lemma SingleMemberParams(key: string, value: Json)
    ensures SearchParams([(key, value)]) ==
      if value.JString? && value.s != "" then [(key, Str(Strip(value.s)))] else []
  {
    assert [(key, value)][1..] == [];
  }

  /** The criteria of members with one member inserted: that member's contribution in between. */
  lemma InsertedMemberParams(a: seq<(string, Json)>, key: string, value: Json, b: seq<(string, Json)>)
    ensures SearchParams(a + [(key, value)] + b) == SearchParams(a) + SearchParams([(key, value)]) + SearchParams(b)
  {
    SearchParamsAppend(a + [(key, value)], b);
    SearchParamsAppend(a, [(key, value)]);
  }

  /** A member that is not text, or whose text is only whitespace, leaves the database search unchanged. */
  lemma BlankMemberSearch(a: seq<(string, Json)>, key: string, value: Json, b: seq<(string, Json)>,
                          h: Database.AgeHandling, store: Database.Store)
    requires !value.JString? || AllSpace(value.s)
    ensures Database.SearchBy(SearchParams(a + [(key, value)] + b), h, store) == Database.SearchBy(SearchParams(a + b), h, store)
  {
    InsertedMemberParams(a, key, value, b);
    SearchParamsAppend(a, b);
    SingleMemberParams(key, value);
    var pa, pb := SearchParams(a), SearchParams(b);
    if value.JString? && value.s != "" {
      StripEmptyIffAllSpace(value.s);
      assert SearchParams(a + [(key, value)] + b) == pa + [(key, Str(""))] + pb;
      Database.SearchByIgnoresCriterion(pa, key, Str(""), pb, h, store);
    } else {
      assert SearchParams(a + [(key, value)] + b) == pa + pb;
    }
  }

  /** A member that is not text, or whose text is only whitespace, does not affect the response. */
  lemma BlankMemberIgnored(cfg: Config, h: Database.AgeHandling, a: seq<(string, Json)>, key: string, value: Json,
                           b: seq<(string, Json)>, store: Database.Store, fileExists: string -> bool)
    requires !value.JString? || AllSpace(value.s)
    ensures SearchObject(cfg, h, a + [(key, value)] + b, store, fileExists) == SearchObject(cfg, h, a + b, store, fileExists)
  {
    BlankMemberSearch(a, key, value, b, h, store);
  }

  /** A key the database does not recognise yields no accepted criterion, whatever its value. */
  lemma {:induction false} UnrecognisedKeysUnused(members: seq<(string, Json)>)
    requires forall m :: m in members ==> m.0 !in Database.ValidColumns
    ensures Database.UsableEntries(SearchParams(members)) == []
    ensures Database.AcceptedKeys(SearchParams(members)) == []
  {
    if |members| > 0 {
      assert forall m :: m in members[1..] ==> m in members;
      UnrecognisedKeysUnused(members[1..]);
      var kw := SearchParams(members);
      if members[0].1.JString? && members[0].1.s != "" {
        assert kw[1..] == SearchParams(members[1..]);
      } else {
        assert kw == SearchParams(members[1..]);
      }
    }
  }

  /** With no recognised key no query is executed and the answer is an empty list. */
  lemma NoRecognisedKeyNoQuery(cfg: Config, h: Database.AgeHandling, members: seq<(string, Json)>, store: Database.Store, fileExists: string -> bool)
    requires forall m :: m in members ==> m.0 !in Database.ValidColumns
    ensures SearchObject(cfg, h, members, store, fileExists) == Response(200, Rows([]))
  {
    UnrecognisedKeysUnused(members);
  }

  /** A shaped row's image link names an existing `<Dui>.<ext>` file, for the first extension that exists. */
  lemma ImageLinkNamesExistingFile(cfg: Config, fileExists: string -> bool, row: Row)
    requires "imagen_url" !in row
    requires ShapeRow(cfg, fileExists, row).Success?
    requires "imagen_url" in ShapeRow(cfg, fileExists, row).value
    ensures ImagesConfigured(cfg) && Get(row, "Dui").Str? && Get(row, "Dui").s != ""
    ensures exists i :: (0 <= i < |ImageExtensions| &&
      var f := Strip(Get(row, "Dui").s) + "." + ImageExtensions[i];
      && ShapeRow(cfg, fileExists, row).value["imagen_url"] == Str(ImageUrl(f))
      && fileExists(f)
      && forall j :: 0 <= j < i ==> !fileExists(Strip(Get(row, "Dui").s) + "." + ImageExtensions[j]))
  {
    var dui := Get(row, "Dui");
    var probe := ProbeImage(Strip(dui.s), ImageExtensions, fileExists);
    assert ImagesConfigured(cfg) && Truthy(dui) && probe.Some?;
  }

  /** Without an image directory no image link is added. */
  lemma NoDirectoryNoImage(cfg: Config, fileExists: string -> bool, row: Row)
    requires !ImagesConfigured(cfg)
    ensures ShapeRow(cfg, fileExists, row).Success?
    ensures "imagen_url" in ShapeRow(cfg, fileExists, row).value <==> "imagen_url" in row
  {
  }

  /** The link a shaped row advertises is served by the image route when the name is already safe. */
  lemma AdvertisedImageIsServed(cfg: Config, fileExists: string -> bool, secureFilename: string -> string, row: Row, f: string)
    requires "imagen_url" !in row
    requires ShapeRow(cfg, fileExists, row).Success?
    requires Get(ShapeRow(cfg, fileExists, row).value, "imagen_url") == Str(ImageUrl(f))
    requires secureFilename(f) == f
    ensures ServeImage(cfg, f, secureFilename) == Response(200, ImageFile(cfg.imageDirectory.value, f))
  {
    ImageLinkNamesExistingFile(cfg, fileExists, row);
    var i :| 0 <= i < |ImageExtensions| &&
      ShapeRow(cfg, fileExists, row).value["imagen_url"] == Str(ImageUrl(Strip(Get(row, "Dui").s) + "." + ImageExtensions[i]));
    assert ImageUrl(f) == ImageUrl(Strip(Get(row, "Dui").s) + "." + ImageExtensions[i]);
    assert f == (ImageUrl(f))[|"/dui-images/"|..];
    assert f == Strip(Get(row, "Dui").s) + "." + ImageExtensions[i];
  }

  /**
    `{"edad": "abc", "nombres": "ana"}`: as written the endpoint answers the
    generic 500, because the age leaves a placeholder without a parameter;
    as intended it answers exactly as for `{"nombres": "ana"}`.
   */
  lemma NonNumericAgeEndpoint(cfg: Config, store: Database.Store, fileExists: string -> bool)
    ensures var withAge := Parsed(JObject([("edad", JString("abc")), ("nombres", JString("ana"))]));
      && SearchEndpoint(cfg, Database.AppendThenParse, withAge, store, fileExists) == Response(500, ErrorJson(InternalErrorMessage))
      && SearchEndpoint(cfg, Database.ParseThenAppend, withAge, store, fileExists)
         == SearchEndpoint(cfg, Database.ParseThenAppend, Parsed(JObject([("nombres", JString("ana"))])), store, fileExists)
  {
    var both := [("edad", JString("abc")), ("nombres", JString("ana"))];
    var name := [("nombres", JString("ana"))];
    StripKeepsTrimmed("abc");
    StripKeepsTrimmed("ana");
    assert both[1..] == name && name[1..] == [];
    assert SearchParams(name) == [("nombres", Str("ana"))];
    assert SearchParams(both) == [("edad", Str("abc")), ("nombres", Str("ana"))];
    Database.NonNumericAgeBreaksSearch(store);
    Database.NonNumericAgeDropped(store);
  }

}
