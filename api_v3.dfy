/** The CiviCRM API v3 entity `CFCRedirect`: its `create`, `delete` and `get`
    actions, each a request to the REST resource served in process, and the
    field specification of `create`. The CiviCRM result envelope
    (`civicrm_api3_create_success`) is reduced to the values it carries. */
module ApiV3 {
  import opened Php
  import opened Db
  import Rest

  /** The fields `create` marks as required. */
  const RequiredCreateFields: set<string> := {"entity_id", "post_id", "page_type"}

  /** The parameters `create` passes on to the REST request. */
  const ForwardedFields: set<string> := {"id", "entity_id", "post_id", "page_type", "is_active"}

  /** The values of an API result: the REST answer as it is, or inside a
      one-element list. */
  datatype Payload = Bare(data: Rest.Reply) | Listed(data: Rest.Reply)

  // ---------------------------------------------------------------- create

  /** `_civicrm_api3_c_f_c_redirect_create_spec`: mark the three fields as
      required, keeping everything else the specification says. */
  function CreateSpec(spec: map<string, map<string, Val>>): (r: map<string, map<string, Val>>)
    ensures r.Keys == spec.Keys + RequiredCreateFields
    ensures forall f :: f in RequiredCreateFields ==> "api.required" in r[f] && r[f]["api.required"] == Int(1)
    ensures forall f :: f in spec && f !in RequiredCreateFields ==> r[f] == spec[f]
    ensures forall f :: f in spec && f in RequiredCreateFields ==> r[f] == spec[f]["api.required" := Int(1)]
  {
    map f | f in spec.Keys + RequiredCreateFields ::
      if f in RequiredCreateFields then (if f in spec then spec[f] else map[])["api.required" := Int(1)] else spec[f]
  }

  /** Marking the fields twice is marking them once. */
  lemma CreateSpecIdempotent(spec: map<string, map<string, Val>>)
    ensures CreateSpec(CreateSpec(spec)) == CreateSpec(spec)
  {
    var once := CreateSpec(spec);
    var twice := CreateSpec(once);
    forall f | f in twice ensures twice[f] == once[f] {
      if f in RequiredCreateFields {
        assert once[f]["api.required" := Int(1)] == once[f];
      }
    }
  }

  /** The parameters of the REST request `create` builds. */
  function Forwarded(params: map<string, Val>): (r: map<string, Val>)
    ensures r.Keys == params.Keys * ForwardedFields
    ensures forall k :: k in r ==> r[k] == params[k]
  {
    map k | k in params && k in ForwardedFields :: params[k]
  }

  /** `civicrm_api3_c_f_c_redirect_create`: a POST to the resource with the
      forwarded parameters; the answer comes back in a one-element list. */
  function Create(t: Table, params: map<string, Val>, caller: Rest.Caller, capability: string, host: Rest.Host): (r: (Table, Payload))
    ensures r.0 != t ==> capability in caller.capabilities
    ensures r.0 != t ==> Rest.CheckArgs(Rest.ItemArgs(Rest.CreateRouteArgs), Forwarded(params)).ArgsOk?
  {
    var (t', reply) := Rest.ServeCreate(t, caller, capability, Forwarded(params), "POST", host);
    (t', Listed(reply))
  }

  /** Only table columns are forwarded, so the API's own parameters never
      reach the table; and since `create` always POSTs, a call for an entity
      and page type that already have a mapping is refused and changes
      nothing, even when it names that mapping's id to update it. */
  lemma CreateRefusesMappedEntity(t: Table, params: map<string, Val>, caller: Rest.Caller, capability: string, host: Rest.Host)
    requires capability in caller.capabilities
    requires Rest.CheckArgs(Rest.ItemArgs(Rest.CreateRouteArgs), Forwarded(params)).ArgsOk?
    requires "entity_id" in params && "page_type" in params && params["page_type"].Str?
    requires FindByEntity(t.rows, ToInt(params["entity_id"]), params["page_type"].s).Some?
    ensures Forwarded(params).Keys <= Columns
    ensures Create(t, params, caller, capability, host) ==
      (t, Listed(Rest.WpError("rest_create_error", Rest.DuplicateMessage, Rest.AuthorizationStatusCode(host.loggedIn))))
  {
    var f := Forwarded(params);
    Rest.CheckedCreateArgs(f);
    var p := Rest.CheckArgs(Rest.ItemArgs(Rest.CreateRouteArgs), f).params;
    assert f["entity_id"] == params["entity_id"] && f["page_type"] == params["page_type"];
    assert Rest.IsDuplicate(t, p, "POST");
    assert Rest.ServeCreate(t, caller, capability, f, "POST", host) == Rest.CreateOrUpdate(t, p, "POST", host);
    Rest.DuplicatePostRejected(t, p, "POST", host);
  }

  // ---------------------------------------------------------------- delete

  /** `civicrm_api3_c_f_c_redirect_delete`: a DELETE of the resource with the
      id alone; the answer comes back in a one-element list. */
  function Delete(t: Table, params: map<string, Val>, caller: Rest.Caller, capability: string): (r: (Table, Payload))
    ensures r.0 != t ==> capability in caller.capabilities && Rest.IsSet(params, "id")
    ensures capability !in caller.capabilities && Rest.TypeValid(Rest.IntegerArg, Get(params, "id")) ==>
      r == (t, Listed(Rest.WpError("rest_forbidden", Rest.ForbiddenMessage, Rest.AuthorizationStatusCode(caller.loggedIn))))
  {
    Rest.IdArgChecked(Get(params, "id"));
    var (t', reply) := Rest.ServeDelete(t, caller, capability, map["id" := Get(params, "id")]);
    (t', Listed(reply))
  }

  /** A permitted delete with an integer id removes the mapping with that id
      and keeps every other; without an id nothing is deleted. */
  lemma DeleteRemovesById(t: Table, params: map<string, Val>, caller: Rest.Caller, capability: string)
    requires WellFormed(t) && t.created
    requires capability in caller.capabilities
    ensures var (t', _) := Delete(t, params, caller, capability);
      && WellFormed(t')
      && (Rest.TypeValid(Rest.IntegerArg, Get(params, "id")) ==>
            && FindById(t'.rows, ToInt(Get(params, "id"))).None?
            && (forall x :: x in t.rows && Get(x, "id") != Int(ToInt(Get(params, "id"))) ==> x in t'.rows))
      && (!Rest.IsSet(params, "id") ==> t' == t)
  {
    var v := Get(params, "id");
    Rest.IdArgChecked(v);
    if Rest.TypeValid(Rest.IntegerArg, v) {
      Rest.DeleteByIdRemoves(t, ToInt(v));
    }
  }

  // ------------------------------------------------------------------- get

  /** The path `get` requests: by id when one is given, by entity when one is
      given, the whole resource otherwise. */
  function GetPath(params: map<string, Val>): string {
    if !EmptyAt(params, "id") then Rest.IdPath(ToInt(params["id"]))
    else if !EmptyAt(params, "entity_id") then Rest.EntityPath(ToInt(params["entity_id"]))
    else Rest.RoutePrefix
  }

  /** The parameters of the GET: the page type when it is set. */
  function GetParams(params: map<string, Val>): map<string, Val> {
    if Rest.IsSet(params, "page_type") then map["page_type" := params["page_type"]] else map[]
  }

  /** `civicrm_api3_c_f_c_redirect_get`: the answer, inside a one-element
      list only when both an id and an entity id are given. */
  function Read(t: Table, params: map<string, Val>): (r: Payload)
    ensures EmptyAt(params, "id") && EmptyAt(params, "entity_id") ==> r == Bare(Rest.GetItems(t))
  {
    var reply := Rest.ServeGet(t, GetPath(params), GetParams(params));
    if EmptyAt(params, "id") || EmptyAt(params, "entity_id") then Bare(reply) else Listed(reply)
  }

  /** The path `get` builds reaches the handler it means: the id lookup for an
      id, the entity lookup (with the page type when set) for an entity id,
      the list otherwise. An id wins over an entity id, and a negative one
      reaches no route. */
  lemma ReadAnswers(t: Table, params: map<string, Val>)
    ensures var reply := Read(t, params).data;
      && (!EmptyAt(params, "id") ==>
            var id := ToInt(params["id"]);
            reply == if id >= 0 then Rest.GetItem(t, map["id" := Int(id)]) else Rest.WpError("rest_no_route", Rest.NoRouteMessage, 404))
      && (EmptyAt(params, "id") && !EmptyAt(params, "entity_id") ==>
            var e := ToInt(params["entity_id"]);
            reply == if e >= 0 then Rest.GetItem(t, map["entity_id" := Int(e)] + GetParams(params)) else Rest.WpError("rest_no_route", Rest.NoRouteMessage, 404))
      && (EmptyAt(params, "id") && EmptyAt(params, "entity_id") ==> reply == Rest.GetItems(t))
      && (Read(t, params).Listed? <==> !EmptyAt(params, "id") && !EmptyAt(params, "entity_id"))
  {
    var q := GetParams(params);
    if !EmptyAt(params, "id") {
      Rest.ServeGetById(t, ToInt(params["id"]), q);
    } else if !EmptyAt(params, "entity_id") {
      Rest.ServeGetEntity(t, ToInt(params["entity_id"]), q);
    }
  }
}
