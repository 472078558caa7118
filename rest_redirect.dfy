/** The REST controller for the redirect table (namespace `cfcr-api/v2`,
    resource `r`): response filtering by the item schema, the argument
    table and its validators, the 401/403 rule, the permission checks, and
    the list, get, create-or-update and delete handlers.

    Host services are parameters: the post type and title of a post id, the
    CRM lookup of an entity title, whether the caller is logged in and which
    capabilities it holds. The extension filters are the identity. */
module Rest {
  import opened Php
  import opened Db

  /** The properties of the item schema. */
  const SchemaProperties: set<string> :=
    {"id", "entity_id", "page_type", "page_title", "post_id", "post_type", "post_title", "is_active"}

  /** What a handler answers: one item, a list of items, an empty array, a
      `WP_Error` with its code, message and HTTP status, or nothing at all
      because a `TypeError` escaped the handler and ended the request. */
  datatype Reply =
    | Object(fields: map<string, Val>)
    | Collection(items: seq<map<string, Val>>)
    | EmptyArray
    | WpError(code: string, message: string, status: int)
    | Fatal

  /** `isset($m[$k])`: present and not null. */
  predicate IsSet(m: map<string, Val>, k: string) {
    k in m && m[k] != Null
  }

  // -------------------------------------------------- schema and arguments

  /** `prepare_item_for_response`: keep exactly the schema properties. */
  function PrepareItem(item: map<string, Val>): (r: map<string, Val>)
    ensures r.Keys == item.Keys * SchemaProperties
    ensures forall k :: k in r ==> r[k] == item[k]
  {
    map k | k in item && k in SchemaProperties :: item[k]
  }

  /** Filtering twice is filtering once. */
  lemma PrepareIdempotent(item: map<string, Val>)
    ensures PrepareItem(PrepareItem(item)) == PrepareItem(item)
  {
  }

  /** A stored row goes out unchanged: the schema and the table have the same
      fields, so serialising a mapping neither adds nor drops a field. */
  lemma PrepareKeepsStoredRow(r: Row)
    requires WellFormedRow(r)
    ensures PrepareItem(r) == r
  {
    assert PrepareItem(r).Keys == r.Keys;
  }

  /** The folded list `get_items` builds: every row filtered, in table order. */
  function PrepareAll(rows: seq<Row>): (items: seq<map<string, Val>>)
    ensures |items| == |rows|
    ensures forall i :: 0 <= i < |rows| ==> items[i] == PrepareItem(rows[i])
  {
    if rows == [] then [] else PrepareAll(rows[..|rows| - 1]) + [PrepareItem(rows[|rows| - 1])]
  }

  datatype ArgType = IntegerArg | StringArg
  datatype Validator = NoCheck | PageTypeEnum | PostTypeEnum | ActiveFlag
  datatype ArgSpec = ArgSpec(argType: ArgType, required: bool, validator: Validator)

  /** The full argument table of `get_item_args`. */
  const AllArgs: map<string, ArgSpec> := map[
    "id" := ArgSpec(IntegerArg, true, NoCheck),
    "entity_id" := ArgSpec(IntegerArg, true, NoCheck),
    "page_type" := ArgSpec(StringArg, true, PageTypeEnum),
    "page_title" := ArgSpec(StringArg, false, NoCheck),
    "post_id" := ArgSpec(IntegerArg, true, NoCheck),
    "post_type" := ArgSpec(StringArg, true, PostTypeEnum),
    "post_title" := ArgSpec(StringArg, false, NoCheck),
    "is_active" := ArgSpec(IntegerArg, false, ActiveFlag)
  ]

  /** `get_item_args($return)`: every argument when nothing is asked for,
      otherwise exactly the arguments named. */
  function ItemArgs(wanted: seq<string>): (r: map<string, ArgSpec>)
    ensures wanted == [] ==> r == AllArgs
    ensures wanted != [] ==> r.Keys == AllArgs.Keys * (set k | k in wanted)
    ensures forall k :: k in r ==> k in AllArgs && r[k] == AllArgs[k]
  {
    if wanted == [] then AllArgs else map k | k in AllArgs && k in wanted :: AllArgs[k]
  }

  /** The `validate_callback`s: the page type and post type must be one of
      their strings; `is_active` must be numeric and loosely equal to 0 or 1. */
  predicate Validates(v: Validator, param: Val) {
    match v
    case NoCheck => true
    case PageTypeEnum => param == Str("contribution_page") || param == Str("event")
    case PostTypeEnum => param == Str("post") || param == Str("page")
    case ActiveFlag =>
      match param
      case Int(i) => i == 0 || i == 1
      case Str(s) => IsNumericStr(s) && (LeadingInt(s) == 0 || LeadingInt(s) == 1)
      case Null => false
  }

  /** Every value a validator accepts is stored as a page type of the
      schema's enum, a post type of its enum, or an `is_active` of 0 or 1. */
  lemma ValidatedValuesFitSchema(param: Val)
    ensures Validates(PageTypeEnum, param) ==> Coerce("page_type", param) in {Str("event"), Str("contribution_page")}
    ensures Validates(PostTypeEnum, param) ==> Coerce("post_type", param) in {Str("post"), Str("page")}
    ensures Validates(ActiveFlag, param) ==> ToInt(param) in {0, 1}
  {
  }

  // --------------------------------------------------------------- routes

  /** The path of the resource. */
  const RoutePrefix: string := "/cfcr-api/v2/r"
  const EntitySegment: string := "entity/"

  /** The handler group a path reaches: the base route, `/r/<id>`,
      `/r/entity/<entity_id>`, or none. Path parameters match `[\d]+`. */
  datatype Route = Items | ItemById(id: nat) | ItemByEntity(entityId: nat) | NoRoute

  predicate DigitsParam(s: string) {
    s != [] && AllDigits(s)
  }

  function MatchRoute(path: string): (r: Route)
    ensures r == Items <==> path == RoutePrefix
    ensures r.ItemById? || r.ItemByEntity? ==>
      |path| > |RoutePrefix| + 1 && path[..|RoutePrefix| + 1] == RoutePrefix + "/"
    ensures r.ItemById? ==> DigitsParam(path[|RoutePrefix| + 1..])
  {
    var head := |RoutePrefix| + 1;
    if path == RoutePrefix then Items
    else if |path| < head || path[..head] != RoutePrefix + "/" then NoRoute
    else
      var tail := path[head..];
      if DigitsParam(tail) then ItemById(DecimalValue(tail))
      else if |tail| > |EntitySegment| && tail[..|EntitySegment|] == EntitySegment && DigitsParam(tail[|EntitySegment|..]) then
        ItemByEntity(DecimalValue(tail[|EntitySegment|..]))
      else NoRoute
  }

  /** The path `sprintf('/cfcr-api/v2/r/%d', $id)`. */
  function IdPath(id: int): string {
    RoutePrefix + "/" + IntToDecimal(id)
  }

  /** The path `sprintf('/cfcr-api/v2/r/entity/%d', $id)`. */
  function EntityPath(id: int): string {
    RoutePrefix + "/" + EntitySegment + IntToDecimal(id)
  }

  /** A printed id reaches its handler with the same id when it is not
      negative; a negative one reaches no handler, since the sign is not a
      digit. */
  lemma PathsRoundTrip(id: int)
    ensures MatchRoute(IdPath(id)) == if id >= 0 then ItemById(id) else NoRoute
    ensures MatchRoute(EntityPath(id)) == if id >= 0 then ItemByEntity(id) else NoRoute
  {
    var head := |RoutePrefix| + 1;
    var d := IntToDecimal(id);
    assert IdPath(id)[..head] == RoutePrefix + "/" && IdPath(id)[head..] == d;
    var e := EntityPath(id);
    assert e[..head] == RoutePrefix + "/" && e[head..] == EntitySegment + d;
    assert (EntitySegment + d)[..|EntitySegment|] == EntitySegment;
    assert (EntitySegment + d)[|EntitySegment|..] == d;
    assert !DigitsParam(EntitySegment + d) by {
      assert !IsDigit((EntitySegment + d)[0]);
    }
    if id >= 0 {
      DecimalOfNat(id);
    } else {
      assert d[0] == '-';
    }
  }

  // -------------------------------------------------------- authorization

  /** `authorization_status_code`: 401 for an anonymous caller, 403 for a
      logged-in one. */
  function AuthorizationStatusCode(loggedIn: bool): (status: int)
    ensures status == 401 <==> !loggedIn
    ensures status == 403 <==> loggedIn
  {
    if loggedIn then 403 else 401
  }

  datatype Caller = Caller(loggedIn: bool, capabilities: set<string>)

  /** The capability the create and delete checks ask for by default. */
  const DefaultCapability: string := "manage_options"

  const ForbiddenMessage: string := "You don't have enough permissions."

  datatype Operation = Read | Create | Delete

  /** The permission callbacks: reads are always allowed; create and delete
      need the (filterable) capability, otherwise `rest_forbidden` with the
      401/403 status. */
  function PermissionCheck(op: Operation, caller: Caller, capability: string): (r: Option<Reply>)
    ensures r.None? <==> op == Read || capability in caller.capabilities
    ensures r.Some? ==> r.value == WpError("rest_forbidden", ForbiddenMessage, AuthorizationStatusCode(caller.loggedIn))
  {
    if op == Read || capability in caller.capabilities then None
    else Some(WpError("rest_forbidden", ForbiddenMessage, AuthorizationStatusCode(caller.loggedIn)))
  }

  // ---------------------------------------------------------------- reads

  /** `get_items`: every row filtered, or an empty array for an empty table. */
  function GetItems(t: Table): (r: Reply)
    ensures t.rows == [] <==> r == EmptyArray
    ensures r.Collection? ==> r.items == PrepareAll(t.rows)
  {
    if t.rows == [] then EmptyArray else Collection(PrepareAll(t.rows))
  }

  /** The row `get_item` looks up: by entity (with the page type only when one
      is given) when `entity_id` is set, by id otherwise. */
  function ItemLookup(t: Table, params: map<string, Val>): (r: Option<Row>)
    ensures r.Some? ==> r.value in t.rows
    ensures r.Some? && IsSet(params, "entity_id") ==> Get(r.value, "entity_id") == Int(ToInt(params["entity_id"]))
    ensures r.Some? && !IsSet(params, "entity_id") ==> Get(r.value, "id") == Int(ToInt(Get(params, "id")))
  {
    if IsSet(params, "entity_id") then
      FindByEntity(t.rows, ToInt(params["entity_id"]), if IsSet(params, "page_type") then ToStr(params["page_type"]) else "")
    else FindById(t.rows, ToInt(Get(params, "id")))
  }

  /** True when `get_item`'s lookup accepts its parameters: an `entity_id`
      reaches `get_by_entity_id`, whose id parameter is declared `int`. The id
      lookup casts with `(int)` and cannot fail. */
  predicate LookupTypeChecks(params: map<string, Val>) {
    IsSet(params, "entity_id") ==> IntParamAccepts(params["entity_id"])
  }

  /** `get_item`: the row filtered by the schema, or an empty array; the
      request dies when the entity id is not an integer. */
  function GetItem(t: Table, params: map<string, Val>): (r: Reply)
    ensures r == Fatal <==> !LookupTypeChecks(params)
    ensures r == EmptyArray || r.Object? || r == Fatal
  {
    if !LookupTypeChecks(params) then Fatal
    else
      var item := ItemLookup(t, params);
      if item.None? then EmptyArray else Object(PrepareItem(item.value))
  }

  /** Lookup dispatch: by entity and page type, by entity alone, or by id;
      absence is an empty answer, not an error. An entity id that is not an
      integer ends the request. */
  lemma GetItemDispatch(t: Table, params: map<string, Val>)
    requires WellFormed(t)
    ensures IsSet(params, "entity_id") && !IntParamAccepts(params["entity_id"]) ==> GetItem(t, params) == Fatal
    ensures IsSet(params, "entity_id") && IntParamAccepts(params["entity_id"]) && IsSet(params, "page_type") ==>
      var found := FindByEntity(t.rows, ToInt(params["entity_id"]), ToStr(params["page_type"]));
      GetItem(t, params) == if found.None? then EmptyArray else Object(found.value)
    ensures IsSet(params, "entity_id") && IntParamAccepts(params["entity_id"]) && !IsSet(params, "page_type") ==>
      var found := FindByEntity(t.rows, ToInt(params["entity_id"]), "");
      GetItem(t, params) == if found.None? then EmptyArray else Object(found.value)
    ensures !IsSet(params, "entity_id") ==>
      var found := FindById(t.rows, ToInt(Get(params, "id")));
      GetItem(t, params) == if found.None? then EmptyArray else Object(found.value)
  {
    var item := ItemLookup(t, params);
    if item.Some? {
      var k :| 0 <= k < |t.rows| && t.rows[k] == item.value;
      PrepareKeepsStoredRow(t.rows[k]);
    }
  }

  // --------------------------------------------------------------- create

  datatype CrmEntity = Event | ContributionPage

  /** What `civicrm_api3(<entity>, 'getsingle', ...)` does: throws with a
      message, or returns an array. */
  datatype CrmReply = Threw(message: string) | Returned(fields: map<string, Val>)

  /** The host services `create_item` calls. */
  datatype Host = Host(
    postTypeOf: Val -> Val,
    titleOf: Val -> Val,
    crm: (CrmEntity, Val) -> CrmReply,
    loggedIn: bool)

  const DuplicateMessage: string := "Only one redirect per contribution page/event please."

  /** The CRM entity a page type refers to. */
  function EntityFor(pageType: Val): (e: CrmEntity)
    ensures e == Event <==> pageType == Str("event")
    ensures e == ContributionPage <==> pageType != Str("event")
  {
    if pageType == Str("event") then Event else ContributionPage
  }

  /** The arguments the route registers as required, after the REST server has
      checked and sanitised them: integer ids and a string page type. */
  predicate CreateArgs(params: map<string, Val>) {
    && "entity_id" in params && params["entity_id"].Int?
    && "post_id" in params && params["post_id"].Int?
    && "page_type" in params && params["page_type"].Str?
  }

  /** The parameters with `post_type` and `post_title` filled in from the
      target post. */
  function WithPost(params: map<string, Val>, host: Host): map<string, Val> {
    params["post_type" := host.postTypeOf(Get(params, "post_id"))]["post_title" := host.titleOf(Get(params, "post_id"))]
  }

  /** The CRM answer for the entity the parameters name. */
  function CrmAnswer(params: map<string, Val>, host: Host): CrmReply {
    host.crm(EntityFor(Get(params, "page_type")), Get(params, "entity_id"))
  }

  /** The parameters that are written: `page_title` is set from the CRM reply
      only when the reply is not flagged as an error. */
  function WriteParams(params: map<string, Val>, host: Host): map<string, Val> {
    var p := WithPost(params, host);
    match CrmAnswer(params, host)
    case Threw(_) => p
    case Returned(fields) => if Empty(Get(fields, "is_error")) then p["page_title" := Get(fields, "title")] else p
  }

  /** The written parameters always carry the target post's type and title;
      `page_title` comes from the CRM reply exactly when that reply is not
      flagged as an error, and nothing else of the request changes. */
  lemma WriteParamsSpec(params: map<string, Val>, host: Host)
    ensures var data := WriteParams(params, host);
      && data["post_type"] == host.postTypeOf(Get(params, "post_id"))
      && data["post_title"] == host.titleOf(Get(params, "post_id"))
      && (forall k :: k in params && k !in {"post_type", "post_title", "page_title"} ==> k in data && data[k] == params[k])
      && data.Keys <= params.Keys + {"post_type", "post_title", "page_title"}
      && (CrmAnswer(params, host).Returned? && Empty(Get(CrmAnswer(params, host).fields, "is_error")) ==>
            data["page_title"] == Get(CrmAnswer(params, host).fields, "title"))
      && (CrmAnswer(params, host).Returned? && !Empty(Get(CrmAnswer(params, host).fields, "is_error")) ==>
            data == WithPost(params, host))
  {
  }

  /** True when a POST is refused because the entity already has a mapping. */
  predicate IsDuplicate(t: Table, params: map<string, Val>, verb: string)
    requires CreateArgs(params)
  {
    verb == "POST" && FindByEntity(t.rows, params["entity_id"].i, params["page_type"].s).Some?
  }

  /** A filtered item, or an empty array for null/false. */
  function ItemReply(item: Option<Row>): Reply {
    if item.None? then EmptyArray else Object(PrepareItem(item.value))
  }

  /** `create_item` for the EDITABLE methods (POST, PUT, PATCH): the new table
      and the answer. The `id` is not a registered argument of the route, so
      it arrives unchecked: after a successful UPDATE, `get_by_id` receives it
      through its `int` parameter, and an id that is not an integer ends the
      request although the UPDATE has already run. */
  function CreateOrUpdate(t: Table, params: map<string, Val>, verb: string, host: Host): (r: (Table, Reply))
    requires CreateArgs(params)
    ensures r.1.WpError? <==> IsDuplicate(t, params, verb) || CrmAnswer(params, host).Threw?
    ensures r.1.WpError? ==> r.0 == t
    ensures r.1 == Fatal ==> IsSet(params, "id") && !IntParamAccepts(params["id"])
  {
    if IsDuplicate(t, params, verb) then
      (t, WpError("rest_create_error", DuplicateMessage, AuthorizationStatusCode(host.loggedIn)))
    else if CrmAnswer(params, host).Threw? then
      (t, WpError("rest_create_error", CrmAnswer(params, host).message, AuthorizationStatusCode(host.loggedIn)))
    else
      var data := WriteParams(params, host);
      assert IsSet(data, "id") <==> IsSet(params, "id");
      assert IsSet(data, "id") ==> data["id"] == params["id"];
      if IsSet(data, "id") then
        var (t', u) := TableUpdate(t, data - {"id"}, ToInt(data["id"]));
        (t', if u.UpdateFailed? then EmptyArray else if !IntParamAccepts(data["id"]) then Fatal else ItemReply(u.row))
      else
        var (t', r) := TableInsert(t, data);
        (t', ItemReply(r))
  }

  /** A POST for an entity and page type that already have a mapping is
      refused with `rest_create_error` and changes nothing, whether or not an
      id is given; PUT and PATCH are never refused for that reason. */
  lemma DuplicatePostRejected(t: Table, params: map<string, Val>, verb: string, host: Host)
    requires CreateArgs(params)
    ensures var (t', r) := CreateOrUpdate(t, params, verb, host);
      (IsDuplicate(t, params, verb) <==>
        verb == "POST" && FindByEntity(t.rows, params["entity_id"].i, params["page_type"].s).Some?) &&
      (IsDuplicate(t, params, verb) ==>
        t' == t && r == WpError("rest_create_error", DuplicateMessage, AuthorizationStatusCode(host.loggedIn))) &&
      (verb != "POST" ==> !r.WpError? || CrmAnswer(params, host).Threw?)
  {
  }

  /** A CRM exception aborts the write and is reported with its message. */
  lemma CrmFailureAborts(t: Table, params: map<string, Val>, verb: string, host: Host)
    requires CreateArgs(params)
    requires !IsDuplicate(t, params, verb)
    requires CrmAnswer(params, host).Threw?
    ensures CreateOrUpdate(t, params, verb, host) ==
      (t, WpError("rest_create_error", CrmAnswer(params, host).message, AuthorizationStatusCode(host.loggedIn)))
  {
  }

  /** With an id the handler updates that row with the parameters minus the
      id, so the row keeps its id, no row is added and the others are
      untouched; the answer is the updated row. */
  lemma UpdateKeepsId(t: Table, params: map<string, Val>, verb: string, host: Host)
    requires WellFormed(t)
    requires CreateArgs(params)
    requires !IsDuplicate(t, params, verb) && CrmAnswer(params, host).Returned?
    requires IsSet(params, "id")
    requires FindById(t.rows, ToInt(params["id"])).Some?
    ensures var (t', r) := CreateOrUpdate(t, params, verb, host);
      var id := ToInt(params["id"]);
      var data := WriteParams(params, host) - {"id"};
      && WellFormed(t')
      && |t'.rows| == |t.rows|
      && (forall i :: 0 <= i < |t.rows| && Get(t.rows[i], "id") != Int(id) ==> t'.rows[i] == t.rows[i])
      && (UpdateAccepted(t, data, id) ==>
            var row := Apply(FindById(t.rows, id).value, data);
            && FindById(t'.rows, id) == Some(row)
            && r == if IntParamAccepts(params["id"]) then Object(row) else Fatal)
      && (!UpdateAccepted(t, data, id) ==> t' == t && r == EmptyArray)
  {
    var id := ToInt(params["id"]);
    var full := WriteParams(params, host);
    assert IsSet(full, "id") && full["id"] == params["id"];
    var data := full - {"id"};
    var (t', u) := TableUpdate(t, data, id);
    assert CreateOrUpdate(t, params, verb, host) ==
      (t', if u.UpdateFailed? then EmptyArray else if !IntParamAccepts(params["id"]) then Fatal else ItemReply(u.row));
    UpdateSpec(t, data, id);
    if UpdateAccepted(t, data, id) {
      var row := Apply(FindById(t.rows, id).value, data);
      assert "id" !in data;
      assert u == Updated(Some(row));
      assert row in t'.rows;
      var k :| 0 <= k < |t'.rows| && t'.rows[k] == row;
      PrepareKeepsStoredRow(t'.rows[k]);
      assert ItemReply(u.row) == Object(row);
    }
  }

  /** An id that is not an integer ends the request exactly when the UPDATE
      it reaches succeeds; the UPDATE has then already been applied, with
      the id converted as the database converts it. */
  lemma NonNumericIdAborts(t: Table, params: map<string, Val>, verb: string, host: Host)
    requires CreateArgs(params)
    requires !IsDuplicate(t, params, verb) && CrmAnswer(params, host).Returned?
    requires IsSet(params, "id") && !IntParamAccepts(params["id"])
    ensures var (t', r) := CreateOrUpdate(t, params, verb, host);
      var data := WriteParams(params, host) - {"id"};
      var id := ToInt(params["id"]);
      && (r == Fatal <==> UpdateAccepted(t, data, id))
      && (r != Fatal ==> r == EmptyArray && t' == t)
      && t' == TableUpdate(t, data, id).0
  {
    var full := WriteParams(params, host);
    assert IsSet(full, "id") && full["id"] == params["id"];
  }

  /** A POST without an id for an entity with no mapping inserts one row; the
      entity lookup then finds that row, carrying the entity id, page type and
      post id that were posted, and a second identical POST is refused. */
  lemma CreateThenGet(t: Table, params: map<string, Val>, host: Host)
    requires WellFormed(t)
    requires CreateArgs(params)
    requires !IsDuplicate(t, params, "POST") && CrmAnswer(params, host).Returned?
    requires !IsSet(params, "id")
    requires InsertAccepted(t, WriteParams(params, host))
    ensures var (t', r) := CreateOrUpdate(t, params, "POST", host);
      var eid := params["entity_id"].i;
      var pt := params["page_type"].s;
      var lookup := GetItem(t', map["entity_id" := Int(eid), "page_type" := Str(pt)]);
      && WellFormed(t')
      && |t'.rows| == |t.rows| + 1
      && r.Object?
      && lookup == r
      && Get(r.fields, "entity_id") == Int(eid)
      && Get(r.fields, "page_type") == Str(pt)
      && Get(r.fields, "post_id") == params["post_id"]
      && IsDuplicate(t', params, "POST")
  {
    var data := WriteParams(params, host);
    assert !IsSet(data, "id");
    assert data["entity_id"] == params["entity_id"] && data["page_type"] == params["page_type"];
    assert data["post_id"] == params["post_id"];
    assert CreateOrUpdate(t, params, "POST", host) == (TableInsert(t, data).0, ItemReply(TableInsert(t, data).1));
    InsertThenLookup(t, data, params["entity_id"].i, params["page_type"].s);
  }

  /** An accepted insert for an entity with no mapping is what the entity
      lookup finds next. */
  lemma InsertThenLookup(t: Table, data: Row, eid: int, pt: string)
    requires WellFormed(t)
    requires InsertAccepted(t, data)
    requires FindByEntity(t.rows, eid, pt).None?
    requires "entity_id" in data && data["entity_id"] == Int(eid)
    requires "page_type" in data && data["page_type"] == Str(pt)
    requires "post_id" in data
    ensures var (t', r) := TableInsert(t, data);
      && WellFormed(t')
      && |t'.rows| == |t.rows| + 1
      && r.Some?
      && GetItem(t', map["entity_id" := Int(eid), "page_type" := Str(pt)]) == ItemReply(r)
      && ItemReply(r) == Object(r.value)
      && r.value["entity_id"] == Int(eid)
      && r.value["page_type"] == Str(pt)
      && r.value["post_id"] == Coerce("post_id", data["post_id"])
      && r.value == NewRow(data, AssignedId(t, data))
      && FindByEntity(t'.rows, eid, pt) == r
  {
    var id := AssignedId(t, data);
    var row := NewRow(data, id);
    InsertAppends(t, data);
    assert row["entity_id"] == Int(eid) && row["page_type"] == Str(pt);
    assert row["post_id"] == Coerce("post_id", data["post_id"]);
    PrepareKeepsStoredRow(row);
    assert ItemReply(Some(row)) == Object(row);
    LookupAppended(TableInsert(t, data).0, t.rows, row, eid, pt);
  }

  /** An accepted insert appends its new row and reads that row back. */
  lemma InsertAppends(t: Table, data: Row)
    requires WellFormed(t)
    requires InsertAccepted(t, data)
    ensures var row := NewRow(data, AssignedId(t, data));
      && TableInsert(t, data).0.rows == t.rows + [row]
      && TableInsert(t, data).1 == Some(row)
      && WellFormedRow(row)
      && WellFormed(TableInsert(t, data).0)
  {
    var id := AssignedId(t, data);
    var row := NewRow(data, id);
    FindByIdAppend(t.rows, row, id);
    NewRowWellFormed(data, id);
    AppendKeepsWellFormed(t, row, id, TableInsert(t, data).0.nextId);
  }

  /** The entity lookup after a row is appended for an entity that had no
      mapping answers with that row. */
  lemma LookupAppended(t: Table, rows: seq<Row>, row: Row, eid: int, pt: string)
    requires t.rows == rows + [row]
    requires WellFormedRow(row)
    requires FindByEntity(rows, eid, pt).None?
    requires row["entity_id"] == Int(eid) && row["page_type"] == Str(pt)
    ensures FindByEntity(t.rows, eid, pt) == Some(row)
    ensures GetItem(t, map["entity_id" := Int(eid), "page_type" := Str(pt)]) == Object(row)
  {
    FindByEntityAppend(rows, row, eid, pt);
    PrepareKeepsStoredRow(row);
    assert ItemLookup(t, map["entity_id" := Int(eid), "page_type" := Str(pt)]) == Some(row);
  }

  lemma {:induction false} FindByEntityAppend(rows: seq<Row>, row: Row, entityId: int, pageType: string)
    requires FindByEntity(rows, entityId, pageType).None?
    requires EntityMatch(row, entityId, pageType)
    ensures FindByEntity(rows + [row], entityId, pageType) == Some(row)
  {
    if rows != [] {
      assert (rows + [row])[1..] == rows[1..] + [row];
      FindByEntityAppend(rows[1..], row, entityId, pageType);
    }
  }

  // --------------------------------------------------------------- delete

  /** A response carrying a PHP array: an empty one is `[]` however it was
      built. */
  function ArrayReply(fields: map<string, Val>): Reply {
    if fields == map[] then EmptyArray else Object(fields)
  }

  /** The answer of `delete_item` for the count `delete` returned: `[]` for
      false or 0, otherwise the count cast to an array and filtered by the
      schema. */
  function DeleteReply(n: Option<nat>): Reply {
    if n.None? || n.value == 0 then EmptyArray else ArrayReply(PrepareItem(map["0" := Int(n.value)]))
  }

  /** `delete_item`: delete the rows matching every parameter. The answer is
      always `[]`, since a count has no schema property. */
  function RemoveItems(t: Table, params: map<string, Val>): (r: (Table, Reply))
    ensures r.1 == EmptyArray
    ensures r.0.rows == Remaining(t.rows, params) || r.0 == t
    ensures DeleteAccepted(t, params) ==> forall x :: x in r.0.rows <==> x in t.rows && !Matches(x, params)
  {
    var (t', n) := TableDelete(t, params);
    assert n.Some? && n.value != 0 ==> PrepareItem(map["0" := Int(n.value)]) == map[];
    (t', DeleteReply(n))
  }

  /** Deleting by id removes that mapping: afterwards neither the id lookup
      nor the list finds it. The answer is empty whatever was deleted, since
      a count carries no schema property. */
  lemma DeleteByIdRemoves(t: Table, id: int)
    requires WellFormed(t)
    requires t.created
    ensures var (t', r) := RemoveItems(t, map["id" := Int(id)]);
      && WellFormed(t')
      && FindById(t'.rows, id).None?
      && GetItem(t', map["id" := Int(id)]) == EmptyArray
      && (forall i :: 0 <= i < |t'.rows| ==> Get(t'.rows[i], "id") != Int(id))
      && (forall x :: x in t.rows && Get(x, "id") != Int(id) ==> x in t'.rows)
      && r == EmptyArray
  {
    var where := map["id" := Int(id)];
    assert where.Keys == {"id"};
    assert DeleteAccepted(t, where);
    DeleteSpec(t, where);
    var t' := TableDelete(t, where).0;
    forall i | 0 <= i < |t'.rows| ensures Get(t'.rows[i], "id") != Int(id) {
      assert t'.rows[i] in t'.rows;
      MatchesId(t'.rows[i], id);
    }
    forall x | x in t.rows && Get(x, "id") != Int(id) ensures x in t'.rows {
      MatchesId(x, id);
    }
  }

  /** Deleting by id matches exactly the rows with that id. */
  lemma MatchesId(r: Row, id: int)
    ensures Matches(r, map["id" := Int(id)]) <==> Get(r, "id") == Int(id)
  {
    assert Coerce("id", Int(id)) == Int(id);
  }

  // ------------------------------------------------------------ the server

  /** What the REST server makes of the arguments a route registers: a
      request missing a required one, or failing a check, is refused;
      otherwise the registered arguments are cast to their type. */
  datatype ArgCheck = ArgsOk(params: map<string, Val>) | ArgsRejected(error: Reply)

  /** The server's own type check, used when an argument has no validator:
      an integer or an integer string for `integer`, a string for `string`. */
  predicate TypeValid(a: ArgType, v: Val) {
    match a
    case IntegerArg => v.Int? || (v.Str? && IsNumericStr(v.s))
    case StringArg => v.Str?
  }

  predicate ArgValid(spec: ArgSpec, v: Val) {
    if spec.validator == NoCheck then TypeValid(spec.argType, v) else Validates(spec.validator, v)
  }

  /** The server's cast of a checked argument to its type. */
  function Sanitize(a: ArgType, v: Val): (r: Val)
    ensures a == IntegerArg ==> r.Int?
    ensures a == StringArg ==> r.Str?
  {
    match a
    case IntegerArg => Int(ToInt(v))
    case StringArg => Str(ToStr(v))
  }

  function CheckArgs(args: map<string, ArgSpec>, params: map<string, Val>): (r: ArgCheck)
    ensures r.ArgsOk? <==>
      (forall k :: k in args && args[k].required ==> IsSet(params, k)) &&
      (forall k :: k in args && k in params ==> ArgValid(args[k], params[k]))
    ensures r.ArgsOk? ==> r.params.Keys == params.Keys
    ensures r.ArgsOk? ==> forall k :: k in params ==>
      r.params[k] == if k in args then Sanitize(args[k].argType, params[k]) else params[k]
    ensures r.ArgsRejected? ==> r.error.WpError? && r.error.status == 400
  {
    if exists k :: k in args && args[k].required && !IsSet(params, k) then
      ArgsRejected(WpError("rest_missing_callback_param", "Missing parameter(s)", 400))
    else if exists k :: k in args && k in params && !ArgValid(args[k], params[k]) then
      ArgsRejected(WpError("rest_invalid_param", "Invalid parameter(s)", 400))
    else
      ArgsOk(map k | k in params :: if k in args then Sanitize(args[k].argType, params[k]) else params[k])
  }

  /** The arguments of the create route. */
  const CreateRouteArgs: seq<string> := ["entity_id", "post_id", "page_type"]

  /** Whatever passes the create route's arguments is what the create
      handler relies on: integer ids and a string page type of the enum. */
  lemma CheckedCreateArgs(params: map<string, Val>)
    ensures var c := CheckArgs(ItemArgs(CreateRouteArgs), params);
      c.ArgsOk? ==> CreateArgs(c.params) && c.params["page_type"] in {Str("event"), Str("contribution_page")}
    ensures var c := CheckArgs(ItemArgs(CreateRouteArgs), params);
      c.ArgsOk? ==> c.params["entity_id"] == Int(ToInt(params["entity_id"])) && c.params["page_type"] == params["page_type"]
  {
    var args := ItemArgs(CreateRouteArgs);
    assert "entity_id" in args && "post_id" in args && "page_type" in args;
    var c := CheckArgs(args, params);
    if c.ArgsOk? {
      assert IsSet(params, "page_type");
      assert ArgValid(args["page_type"], params["page_type"]);
    }
  }

  /** The server for the create and delete routes: the arguments first, then
      the permission callback, then the handler. Without the capability
      nothing is written and the caller gets `rest_forbidden` with 401 or
      403. */
  function ServeCreate(t: Table, caller: Caller, capability: string, params: map<string, Val>, verb: string, host: Host): (r: (Table, Reply))
    ensures r.0 != t ==> CheckArgs(ItemArgs(CreateRouteArgs), params).ArgsOk? && capability in caller.capabilities
    ensures CheckArgs(ItemArgs(CreateRouteArgs), params).ArgsOk? && capability !in caller.capabilities ==>
      r == (t, WpError("rest_forbidden", ForbiddenMessage, AuthorizationStatusCode(caller.loggedIn)))
  {
    CheckedCreateArgs(params);
    match CheckArgs(ItemArgs(CreateRouteArgs), params)
    case ArgsRejected(e) => (t, e)
    case ArgsOk(p) =>
      var denied := PermissionCheck(Create, caller, capability);
      if denied.Some? then (t, denied.value) else CreateOrUpdate(t, p, verb, host)
  }

  function ServeDelete(t: Table, caller: Caller, capability: string, params: map<string, Val>): (r: (Table, Reply))
    ensures r.0 != t ==> CheckArgs(ItemArgs(["id"]), params).ArgsOk? && capability in caller.capabilities
    ensures CheckArgs(ItemArgs(["id"]), params).ArgsOk? && capability !in caller.capabilities ==>
      r == (t, WpError("rest_forbidden", ForbiddenMessage, AuthorizationStatusCode(caller.loggedIn)))
  {
    match CheckArgs(ItemArgs(["id"]), params)
    case ArgsRejected(e) => (t, e)
    case ArgsOk(p) =>
      var denied := PermissionCheck(Delete, caller, capability);
      if denied.Some? then (t, denied.value) else RemoveItems(t, p)
  }

  const NoRouteMessage: string := "No route was found matching the URL and request method."

  /** The server for a GET: the route, the path parameter (the request's own
      parameters taking precedence), the route's arguments, then the
      handler; reads need no permission. */
  function ServeGet(t: Table, path: string, params: map<string, Val>): (r: Reply)
    ensures MatchRoute(path) == NoRoute ==> r == WpError("rest_no_route", NoRouteMessage, 404)
    ensures MatchRoute(path) == Items ==> r == GetItems(t)
  {
    match MatchRoute(path)
    case NoRoute => WpError("rest_no_route", NoRouteMessage, 404)
    case Items => GetItems(t)
    case ItemById(id) =>
      var c := CheckArgs(ItemArgs(["id"]), map["id" := Int(id)] + params);
      if c.ArgsRejected? then c.error else GetItem(t, c.params)
    case ItemByEntity(e) =>
      var c := CheckArgs(ItemArgs(["entity_id"]), map["entity_id" := Int(e)] + params);
      if c.ArgsRejected? then c.error else GetItem(t, c.params)
  }

  /** A GET of `/r/entity/<id>` for a non-negative id, with an optional page
      type, is the entity lookup of `get_item`; a negative id reaches no
      route. */
  lemma ServeGetEntity(t: Table, entityId: int, params: map<string, Val>)
    requires "entity_id" !in params || params["entity_id"] == Int(entityId)
    requires "id" !in params
    ensures entityId >= 0 ==>
      ServeGet(t, EntityPath(entityId), params) == GetItem(t, map["entity_id" := Int(entityId)] + params)
    ensures entityId < 0 ==> ServeGet(t, EntityPath(entityId), params) == WpError("rest_no_route", NoRouteMessage, 404)
  {
    PathsRoundTrip(entityId);
    if entityId >= 0 {
      IntArgPasses("entity_id", map["entity_id" := Int(entityId)] + params);
    }
  }

  /** A GET of `/r/<id>` for a non-negative id is the id lookup of
      `get_item`, whatever page type accompanies it. */
  lemma ServeGetById(t: Table, id: int, params: map<string, Val>)
    requires "id" !in params && "entity_id" !in params
    ensures id >= 0 ==> ServeGet(t, IdPath(id), params) == GetItem(t, map["id" := Int(id)])
    ensures id < 0 ==> ServeGet(t, IdPath(id), params) == WpError("rest_no_route", NoRouteMessage, 404)
  {
    PathsRoundTrip(id);
    if id >= 0 {
      var p := map["id" := Int(id)] + params;
      IntArgPasses("id", p);
      assert ItemLookup(t, p) == ItemLookup(t, map["id" := Int(id)]);
    }
  }

  /** The id argument of the delete route, checked on its own: it passes
      exactly when it is an integer or an integer string, and is then cast. */
  lemma IdArgChecked(v: Val)
    ensures var c := CheckArgs(ItemArgs(["id"]), map["id" := v]);
      && (c.ArgsOk? <==> TypeValid(IntegerArg, v))
      && (c.ArgsOk? ==> c.params == map["id" := Int(ToInt(v))])
  {
    var args := ItemArgs(["id"]);
    assert args.Keys == {"id"} && args["id"] == ArgSpec(IntegerArg, true, NoCheck);
    var c := CheckArgs(args, map["id" := v]);
    if c.ArgsOk? {
      assert c.params["id"] == Int(ToInt(v));
    }
  }

  /** A required integer argument, checked on its own and given as an
      integer, passes with the parameters unchanged. */
  lemma IntArgPasses(k: string, p: map<string, Val>)
    requires k in AllArgs && AllArgs[k] == ArgSpec(IntegerArg, true, NoCheck)
    requires k in p && p[k].Int?
    ensures CheckArgs(ItemArgs([k]), p) == ArgsOk(p)
  {
    var args := ItemArgs([k]);
    assert args.Keys == {k};
    var c := CheckArgs(args, p);
    assert c.ArgsOk?;
    assert c.params == p;
  }

  /** The controller object: the handlers that write go through the store. */
  class RedirectController {
    const db: Store

    constructor (db: Store)
      ensures this.db == db
    {
      this.db := db;
    }

    method CreateItem(params: map<string, Val>, verb: string, host: Host) returns (reply: Reply)
      requires db.Valid()
      requires CreateArgs(params)
      modifies db
      ensures db.Valid()
      ensures (db.Snapshot(), reply) == CreateOrUpdate(old(db.Snapshot()), params, verb, host)
      ensures db.version == old(db.version)
    {
      var entity := EntityFor(params["page_type"]);
      var existing := FindByEntity(db.rows, params["entity_id"].i, params["page_type"].s);
      if existing.Some? && verb == "POST" {
        return WpError("rest_create_error", DuplicateMessage, AuthorizationStatusCode(host.loggedIn));
      }
      var page := host.crm(entity, params["entity_id"]);
      if page.Threw? {
        return WpError("rest_create_error", page.message, AuthorizationStatusCode(host.loggedIn));
      }
      var data := WriteParams(params, host);
      if IsSet(data, "id") {
        var u := db.Update(data - {"id"}, ToInt(data["id"]));
        if u.UpdateFailed? {
          reply := EmptyArray;
        } else if !IntParamAccepts(data["id"]) {
          reply := Fatal;
        } else {
          reply := ItemReply(u.row);
        }
      } else {
        var item := db.Insert(data);
        reply := ItemReply(item);
      }
    }

    method DeleteItem(params: map<string, Val>) returns (reply: Reply)
      requires db.Valid()
      modifies db
      ensures db.Valid()
      ensures (db.Snapshot(), reply) == RemoveItems(old(db.Snapshot()), params)
      ensures reply == EmptyArray
      ensures db.version == old(db.version)
    {
      var n := db.Delete(params);
      reply := DeleteReply(n);
    }
  }
}
