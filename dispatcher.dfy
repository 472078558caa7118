/** The front-end dispatcher: on a CiviCRM base page whose path is an event
    registration or a contribution page, look up the mapping for the id in
    the query and, when it is active and names a post, redirect there.

    The redirect itself (`wp_safe_redirect` to the post's permalink, then
    `exit`) is the outcome `Redirect(postId)`; nothing of the original query
    string is carried over. The mapping is read through the REST handler in
    process, which here is `Rest.GetItem` over the table. */
module Dispatcher {
  import opened Php
  import opened Db
  import Rest

  /** The path tokens of an event registration page. */
  const EventUri: seq<string> := ["civicrm", "event", "register"]

  /** The path tokens of a contribution page. */
  const ContributionUri: seq<string> := ["civicrm", "contribute", "transact"]

  /** `count(array_intersect($args, $uri))`: the number of path segments,
      repetitions included, that are one of the tokens. */
  function IntersectCount(args: seq<string>, uri: seq<string>): (n: nat)
    ensures n <= |args|
  {
    if args == [] then 0 else (if args[0] in uri then 1 else 0) + IntersectCount(args[1..], uri)
  }

  /** The count is the sum of the multiplicities of the three tokens. */
  lemma {:induction false} IntersectCountByMultiset(args: seq<string>, uri: seq<string>)
    requires |uri| == 3 && uri[0] != uri[1] && uri[0] != uri[2] && uri[1] != uri[2]
    ensures IntersectCount(args, uri) == multiset(args)[uri[0]] + multiset(args)[uri[1]] + multiset(args)[uri[2]]
  {
    if args != [] {
      IntersectCountByMultiset(args[1..], uri);
      assert args == [args[0]] + args[1..];
      assert multiset(args) == multiset{args[0]} + multiset(args[1..]);
    }
  }

  /** The page type a path is classified as: event first, then contribution
      page; neither without a `civicrm` segment. */
  function PageTypeOf(args: seq<string>): (pt: Option<string>)
    ensures pt.Some? ==> "civicrm" in args && !EmptyStr(pt.value)
  {
    if "civicrm" !in args then None
    else if IntersectCount(args, EventUri) >= 3 then Some("event")
    else if IntersectCount(args, ContributionUri) >= 3 then Some("contribution_page")
    else None
  }

  /** The classification depends only on which segments occur how often, not
      on their order. */
  lemma ClassificationIgnoresOrder(a: seq<string>, b: seq<string>)
    requires multiset(a) == multiset(b)
    ensures PageTypeOf(a) == PageTypeOf(b)
  {
    IntersectCountByMultiset(a, EventUri);
    IntersectCountByMultiset(b, EventUri);
    IntersectCountByMultiset(a, ContributionUri);
    IntersectCountByMultiset(b, ContributionUri);
    assert "civicrm" in a <==> multiset(a)["civicrm"] > 0;
    assert "civicrm" in b <==> multiset(b)["civicrm"] > 0;
  }

  /** A path holding all three tokens of a page kind is classified, the event
      kind taking precedence. */
  lemma AllTokensClassify(args: seq<string>)
    ensures (forall k :: 0 <= k < 3 ==> EventUri[k] in args) ==> PageTypeOf(args) == Some("event")
    ensures (forall k :: 0 <= k < 3 ==> ContributionUri[k] in args) ==> PageTypeOf(args).Some?
  {
    IntersectCountByMultiset(args, EventUri);
    IntersectCountByMultiset(args, ContributionUri);
    if forall k :: 0 <= k < 3 ==> EventUri[k] in args {
      assert EventUri[0] in args && EventUri[1] in args && EventUri[2] in args;
    }
    if forall k :: 0 <= k < 3 ==> ContributionUri[k] in args {
      assert ContributionUri[0] in args && ContributionUri[1] in args && ContributionUri[2] in args;
    }
  }

  /** Repetition counts: a path of three `civicrm` segments is classified as an
      event page although it names neither `event` nor `register`. */
  lemma RepeatedTokenClassifies()
    ensures PageTypeOf(Explode("civicrm/civicrm/civicrm")) == Some("event")
    ensures "event" !in Explode("civicrm/civicrm/civicrm")
  {
    ExplodeImplode(["civicrm", "civicrm", "civicrm"]);
    assert Implode(["civicrm", "civicrm", "civicrm"]) == "civicrm/civicrm/civicrm";
    var args := ["civicrm", "civicrm", "civicrm"];
    IntersectCountByMultiset(args, EventUri);
    assert multiset(args)["civicrm"] == 3;
  }

  /** The query of the page: `$_GET['q']` (empty when absent) and
      `$_GET['id']` when set. */
  datatype Request = Request(q: string, id: Option<string>)

  /** What `maybe_do_redirect` does: hand the context back unchanged, redirect
      to a post, or stop with a type error (an id the typed `int` parameter
      refuses). */
  datatype Outcome = Pass(context: string) | Redirect(postId: int) | Abort

  /** The parameters of the in-process request: the entity id, and the page
      type when there is one. */
  function LookupParams(entityId: int, pageType: string): map<string, Val> {
    if EmptyStr(pageType) then map["entity_id" := Int(entityId)]
    else map["entity_id" := Int(entityId), "page_type" := Str(pageType)]
  }

  /** `rest_do_request` for `GET /cfcr-api/v2/r/entity/<id>`, served in
      process. */
  function EntityLookup(t: Table, entityId: int, pageType: string): Rest.Reply {
    Rest.ServeGet(t, Rest.EntityPath(entityId), LookupParams(entityId, pageType))
  }

  /** The post id in a lookup answer: the mapping's post when the mapping is
      active, false (Null) for an error, an empty answer or an inactive one. */
  function PostIdOf(reply: Rest.Reply): (post: Val)
    ensures !reply.Object? ==> post == Null
    ensures reply.Object? && Empty(Get(reply.fields, "is_active")) ==> post == Null
  {
    if reply.Object? && !Empty(Get(reply.fields, "is_active")) then Get(reply.fields, "post_id") else Null
  }

  /** `maybe_do_redirect` as a function of the context, the query and the
      table. */
  function Resolve(context: string, req: Request, t: Table): (o: Outcome)
    ensures context != "basepage" ==> o == Pass(context)
    ensures "civicrm" !in Explode(req.q) ==> o == Pass(context)
    ensures req.id.None? || EmptyStr(req.id.value) ==> o == Pass(context)
  {
    if context != "basepage" then Pass(context)
    else
      var pt := PageTypeOf(Explode(req.q));
      if pt.None? then Pass(context)
      else if req.id.None? || EmptyStr(req.id.value) then Pass(context)
      else if !LeadingNumeric(req.id.value) then Abort
      else
        var post := PostIdOf(EntityLookup(t, LeadingInt(req.id.value), pt.value));
        if Empty(post) then Pass(context) else Redirect(ToInt(post))
  }

  /** End to end over the table: on a classified base page whose id is a
      printed integer, the visitor is redirected exactly when the entity has a
      mapping of that page type that is active and names a post, and then to
      that post. */
  lemma RedirectIffActiveMapping(context: string, q: string, n: int, t: Table)
    requires WellFormed(t)
    requires context == "basepage"
    requires PageTypeOf(Explode(q)).Some?
    ensures var pt := PageTypeOf(Explode(q)).value;
      var found := FindByEntity(t.rows, n, pt);
      Resolve(context, Request(q, Some(IntToDecimal(n))), t) ==
        if n <= 0 || found.None? || Empty(found.value["is_active"]) || found.value["post_id"] == Int(0) then Pass(context)
        else Redirect(found.value["post_id"].i)
  {
    var pt := PageTypeOf(Explode(q)).value;
    var s := IntToDecimal(n);
    var req := Request(q, Some(s));
    IntRoundTrip(n);
    assert LeadingInt(s) == n;
    assert EmptyStr(s) <==> n == 0;
    if n != 0 {
      assert LeadingNumeric(s);
      var post := PostIdOf(EntityLookup(t, n, pt));
      assert Resolve(context, req, t) == if Empty(post) then Pass(context) else Redirect(ToInt(post));
      PostOfEntity(t, n, pt);
    } else {
      assert Resolve(context, req, t) == Pass(context);
    }
  }

  /** The post the in-process lookup yields for an entity id and a page type. */
  lemma PostOfEntity(t: Table, n: int, pt: string)
    requires WellFormed(t)
    requires !EmptyStr(pt)
    ensures var found := FindByEntity(t.rows, n, pt);
      PostIdOf(EntityLookup(t, n, pt)) ==
        if n < 0 || found.None? || Empty(found.value["is_active"]) then Null else found.value["post_id"]
    ensures var found := FindByEntity(t.rows, n, pt);
      n >= 0 && found.Some? ==> found.value["post_id"].Int?
    ensures EntityLookup(t, n, pt) != Rest.Fatal
  {
    Rest.ServeGetEntity(t, n, LookupParams(n, pt));
    assert map["entity_id" := Int(n)] + LookupParams(n, pt) == LookupParams(n, pt);
    var found := FindByEntity(t.rows, n, pt);
    if found.Some? {
      var k :| 0 <= k < |t.rows| && t.rows[k] == found.value;
      assert WellFormedRow(t.rows[k]);
    }
    if n >= 0 {
      Rest.GetItemDispatch(t, LookupParams(n, pt));
    }
  }

  /** The plugin object: it remembers the page type of the last page it
      classified. */
  class Plugin {
    var redirectPageType: string

    constructor ()
      ensures redirectPageType == ""
    {
      redirectPageType := "";
    }

    method IsEventPage(args: seq<string>) returns (isEventPage: bool)
      modifies this
      ensures isEventPage <==> IntersectCount(args, EventUri) >= 3
      ensures redirectPageType == if isEventPage then "event" else old(redirectPageType)
    {
      isEventPage := false;
      if IntersectCount(args, EventUri) >= 3 {
        isEventPage := true;
        redirectPageType := "event";
      }
    }

    method IsContributionPage(args: seq<string>) returns (isContributionPage: bool)
      modifies this
      ensures isContributionPage <==> IntersectCount(args, ContributionUri) >= 3
      ensures redirectPageType == if isContributionPage then "contribution_page" else old(redirectPageType)
    {
      isContributionPage := false;
      if IntersectCount(args, ContributionUri) >= 3 {
        isContributionPage := true;
        redirectPageType := "contribution_page";
      }
    }

    method IsRedirectPage(args: seq<string>) returns (isRedirect: bool)
      modifies this
      ensures isRedirect <==> PageTypeOf(args).Some?
      ensures isRedirect ==> redirectPageType == PageTypeOf(args).value
      ensures !isRedirect ==> redirectPageType == old(redirectPageType)
    {
      if "civicrm" !in args {
        return false;
      }
      isRedirect := IsEventPage(args);
      if !isRedirect {
        isRedirect := IsContributionPage(args);
      }
    }

    /** `get_post_id_for_entity`: the lookup with the remembered page type.
        A negative id prints as a path no route matches, so it finds no
        post; `PostOfEntity` gives the answer for the others. */
    function PostIdForEntity(entityId: int, t: Table): (post: Val)
      reads this
      ensures entityId < 0 ==> post == Null
    {
      Rest.PathsRoundTrip(entityId);
      PostIdOf(EntityLookup(t, entityId, redirectPageType))
    }

    /** `maybe_do_redirect`: on the base page, classifying the query's path
        remembers its page type, which the lookup then uses. */
    method MaybeDoRedirect(context: string, req: Request, t: Table) returns (o: Outcome)
      modifies this
      ensures o == Resolve(context, req, t)
      ensures context == "basepage" && PageTypeOf(Explode(req.q)).Some? ==>
        redirectPageType == PageTypeOf(Explode(req.q)).value
      ensures context != "basepage" || PageTypeOf(Explode(req.q)).None? ==>
        redirectPageType == old(redirectPageType)
    {
      if context != "basepage" {
        return Pass(context);
      }
      var args := Explode(req.q);
      var isRedirect := IsRedirectPage(args);
      if !isRedirect {
        return Pass(context);
      }
      if req.id.None? || EmptyStr(req.id.value) {
        return Pass(context);
      }
      var entityId := req.id.value;
      if !LeadingNumeric(entityId) {
        return Abort;
      }
      var postId := PostIdForEntity(LeadingInt(entityId), t);
      if Empty(postId) {
        return Pass(context);
      }
      o := Redirect(ToInt(postId));
    }
  }
}
