/** The "Caldera Forms Redirect" tab of CiviCRM's event management screen:
    its validation rule, the elements it renders, its defaults from the
    event's mapping, the cached post and page listings, and the submission
    that creates or updates the event's mapping. */
module EventForm {
  import opened Php
  import opened Db
  import Rest

  /** The names of the form's own elements, in the order they are declared. */
  const RenderableElements: seq<string> := ["cfcr_is_active", "cfcr_post_or_page", "cfcr_post", "cfcr_page"]

  // ------------------------------------------------------------ rendering

  /** `getElementsToRender`: the names of the form's elements that are the
      form's own, in the order the form holds them. */
  function ElementsToRender(elements: seq<string>): (r: seq<string>)
    ensures |r| <= |elements|
    ensures forall x :: x in r <==> x in elements && x in RenderableElements
  {
    if elements == [] then []
    else
      var kept := ElementsToRender(elements[..|elements| - 1]);
      var last := elements[|elements| - 1];
      if last in RenderableElements then kept + [last] else kept
  }

  /** Filtering distributes over concatenation, so the relative order of the
      kept elements is that of the form. */
  lemma {:induction false} ElementsToRenderConcat(a: seq<string>, b: seq<string>)
    ensures ElementsToRender(a + b) == ElementsToRender(a) + ElementsToRender(b)
  {
    if b == [] {
      assert a + b == a;
    } else {
      var b' := b[..|b| - 1];
      assert (a + b)[..|a + b| - 1] == a + b';
      ElementsToRenderConcat(a, b');
    }
  }

  // ----------------------------------------------------------- validation

  /** The outcome of `validateForm`: accepted, or the messages per field. */
  datatype Validation = Accepted | Rejected(errors: map<string, string>)

  const PostTypeRequired: string := "Post type is required."

  /** The field that holds the chosen post for a post type ("post" or "page"). */
  function PostField(values: map<string, Val>): string {
    "cfcr_" + ToStr(Get(values, "cfcr_post_or_page"))
  }

  /** `validateForm`: an active redirect needs a post type, and a post type
      needs its post. */
  function ValidateForm(values: map<string, Val>): (v: Validation)
    ensures v.Rejected? ==> v.errors != map[] && v.errors.Keys <= {"cfcr_post_or_page", PostField(values)}
  {
    var errors: map<string, string> :=
      if !EmptyAt(values, "cfcr_is_active") && EmptyAt(values, "cfcr_post_or_page") then map["cfcr_post_or_page" := PostTypeRequired]
      else map[];
    var errors' :=
      if !EmptyAt(values, "cfcr_post_or_page") && EmptyAt(values, PostField(values)) then
        errors[PostField(values) := ToStr(Get(values, "cfcr_post_or_page")) + " is required."]
      else errors;
    if errors' == map[] then Accepted else Rejected(errors')
  }

  /** The form is accepted exactly when an active redirect names a post type
      and a named post type comes with its post; each missing piece is
      reported on its own field. */
  lemma ValidateFormSpec(values: map<string, Val>)
    ensures ValidateForm(values) == Accepted <==>
      (EmptyAt(values, "cfcr_is_active") || !EmptyAt(values, "cfcr_post_or_page")) &&
      (EmptyAt(values, "cfcr_post_or_page") || !EmptyAt(values, PostField(values)))
    ensures !EmptyAt(values, "cfcr_is_active") && EmptyAt(values, "cfcr_post_or_page") ==>
      ValidateForm(values) == Rejected(map["cfcr_post_or_page" := PostTypeRequired])
    ensures !EmptyAt(values, "cfcr_post_or_page") && EmptyAt(values, PostField(values)) ==>
      ValidateForm(values).Rejected? && PostField(values) in ValidateForm(values).errors
  {
    var first := !EmptyAt(values, "cfcr_is_active") && EmptyAt(values, "cfcr_post_or_page");
    var second := !EmptyAt(values, "cfcr_post_or_page") && EmptyAt(values, PostField(values));
    var errors: map<string, string> := if first then map["cfcr_post_or_page" := PostTypeRequired] else map[];
    assert first ==> "cfcr_post_or_page" in errors;
    if second {
      var errors' := errors[PostField(values) := ToStr(Get(values, "cfcr_post_or_page")) + " is required."];
      assert PostField(values) in errors';
      assert ValidateForm(values) == Rejected(errors');
    } else if first {
      assert ValidateForm(values) == Rejected(errors);
    } else {
      assert ValidateForm(values) == Accepted;
    }
  }

  /** The post id a submission uses: the post field for "post", the page
      field otherwise. */
  function ChosenPostId(values: map<string, Val>): Val {
    if Get(values, "cfcr_post_or_page") == Str("post") then Get(values, "cfcr_post") else Get(values, "cfcr_page")
  }

  /** An accepted active submission whose post type is one of the form's
      options carries a post id. */
  lemma AcceptedActiveHasPost(values: map<string, Val>)
    requires ValidateForm(values) == Accepted
    requires !EmptyAt(values, "cfcr_is_active")
    requires Get(values, "cfcr_post_or_page") in {Str("post"), Str("page")}
    ensures !Empty(ChosenPostId(values))
  {
    ValidateFormSpec(values);
    if Get(values, "cfcr_post_or_page") == Str("post") {
      assert PostField(values) == "cfcr_post";
    } else {
      assert PostField(values) == "cfcr_page";
    }
  }

  // -------------------------------------------------------------- listing

  /** A published post as the query returns it. */
  datatype PostEntry = PostEntry(id: int, title: string)

  /** The fold of `getWPPosts`: post titles by post id, a later entry
      overwriting an earlier one with the same id. */
  function PostsById(entries: seq<PostEntry>): (m: map<int, string>)
    ensures m.Keys == set e | e in entries :: e.id
  {
    if entries == [] then map[]
    else
      var last := entries[|entries| - 1];
      var m0 := PostsById(entries[..|entries| - 1]);
      assert forall e :: e in entries <==> e in entries[..|entries| - 1] || e == last;
      m0[last.id := last.title]
  }

  /** Every listed post maps to the title of its last entry. */
  lemma {:induction false} PostsByIdLastWins(entries: seq<PostEntry>, i: int)
    requires 0 <= i < |entries|
    requires forall j :: i < j < |entries| ==> entries[j].id != entries[i].id
    ensures entries[i].id in PostsById(entries) && PostsById(entries)[entries[i].id] == entries[i].title
  {
    if i < |entries| - 1 {
      PostsByIdLastWins(entries[..|entries| - 1], i);
    }
  }

  /** The listing `getWPPosts` answers with: the cache when it is not empty,
      the query's entries otherwise. */
  function Listing(cache: map<int, string>, entries: seq<PostEntry>): map<int, string> {
    if cache != map[] then cache else PostsById(entries)
  }

  /** `$listing[$postId]`: the title under the id, integer-like string keys
      being the same as integer keys; null when absent. */
  function PostTitleFor(listing: map<int, string>, postId: Val): (title: Val)
    ensures title != Null ==> title.Str? && title.s in listing.Values
    ensures postId.Int? ==> (title != Null <==> postId.i in listing)
  {
    match postId
    case Int(i) => if i in listing then Str(listing[i]) else Null
    case Str(s) =>
      var i := LeadingInt(s);
      if IntToDecimal(i) == s && i in listing then Str(listing[i]) else Null
    case Null => Null
  }

  // ----------------------------------------------------------- submission

  /** The `is_active` a submission writes: the checkbox value, or 0. */
  function ActiveValue(values: map<string, Val>): Val {
    if !EmptyAt(values, "cfcr_is_active") then values["cfcr_is_active"] else Int(0)
  }

  /** The record `postProcess` writes for the event. */
  function Submission(eventId: Val, event: map<string, Val>, isTemplate: bool, values: map<string, Val>, postTitle: Val): (r: Row)
    ensures r.Keys == Columns - {"id"}
    ensures r["page_type"] == Str("event") && r["entity_id"] == eventId
    ensures r["post_id"] == ChosenPostId(values) && r["post_type"] == Get(values, "cfcr_post_or_page")
    ensures r["is_active"] == if EmptyAt(values, "cfcr_is_active") then Int(0) else values["cfcr_is_active"]
    ensures r["page_title"] == if isTemplate then Get(event, "template_title") else Get(event, "title")
  {
    map[
      "entity_id" := eventId,
      "page_type" := Str("event"),
      "is_active" := ActiveValue(values),
      "post_type" := Get(values, "cfcr_post_or_page"),
      "post_id" := ChosenPostId(values),
      "page_title" := if isTemplate then Get(event, "template_title") else Get(event, "title"),
      "post_title" := postTitle
    ]
  }

  /** Update the event's mapping when the form holds one with an id, insert
      otherwise. An update keeps the number of rows; an insert adds one row
      after the others or changes nothing. */
  function Submit(t: Table, redirect: Option<Row>, record: Row): (t': Table)
    ensures redirect.Some? && !EmptyAt(redirect.value, "id") ==> |t'.rows| == |t.rows|
    ensures !(redirect.Some? && !EmptyAt(redirect.value, "id")) ==>
      t' == t || (|t'.rows| == |t.rows| + 1 && t'.rows[..|t.rows|] == t.rows)
  {
    if redirect.Some? && !EmptyAt(redirect.value, "id") then
      var id := redirect.value["id"];
      TableUpdate(t, record["id" := id], ToInt(id)).0
    else TableInsert(t, record).0
  }

  /** A first submission for an event with no mapping stores one, found next
      by the event lookup, with the chosen post and the active flag. */
  lemma FirstSubmissionCreates(t: Table, eid: int, event: map<string, Val>, isTemplate: bool, values: map<string, Val>, postTitle: Val)
    requires WellFormed(t)
    requires FindByEntity(t.rows, eid, "event").None?
    requires InsertAccepted(t, Submission(Int(eid), event, isTemplate, values, postTitle))
    ensures var t' := Submit(t, None, Submission(Int(eid), event, isTemplate, values, postTitle));
      var found := FindByEntity(t'.rows, eid, "event");
      && WellFormed(t')
      && |t'.rows| == |t.rows| + 1
      && found.Some?
      && Get(found.value, "post_id") == Coerce("post_id", ChosenPostId(values))
      && Get(found.value, "is_active") == Coerce("is_active", ActiveValue(values))
      && Get(found.value, "post_type") == Coerce("post_type", Get(values, "cfcr_post_or_page"))
  {
    var data := Submission(Int(eid), event, isTemplate, values, postTitle);
    assert data["entity_id"] == Int(eid) && data["page_type"] == Str("event") && "post_id" in data;
    Rest.InsertThenLookup(t, data, eid, "event");
    var (t', r) := TableInsert(t, data);
    assert Submit(t, None, data) == t';
    var row := NewRow(data, AssignedId(t, data));
    assert r == Some(row);
    assert FindByEntity(t'.rows, eid, "event") == Some(row);
    assert row["post_id"] == Coerce("post_id", ChosenPostId(values));
    assert row["is_active"] == Coerce("is_active", ActiveValue(values));
    assert row["post_type"] == Coerce("post_type", Get(values, "cfcr_post_or_page"));
  }

  /** A later submission rewrites the event's mapping in place: same id, same
      number of rows, every other row unchanged, and the mapping now holds
      the submitted values. A record naming a field that is no column makes
      the statement fail and changes nothing. */
  lemma LaterSubmissionUpdates(t: Table, redirect: Row, record: Row)
    requires WellFormed(t)
    requires redirect in t.rows
    requires !EmptyAt(redirect, "id")
    requires "id" !in record
    ensures var t' := Submit(t, Some(redirect), record);
      var id := redirect["id"].i;
      && WellFormed(t')
      && |t'.rows| == |t.rows|
      && (forall i :: 0 <= i < |t.rows| && Get(t.rows[i], "id") != Int(id) ==> t'.rows[i] == t.rows[i])
      && FindById(t'.rows, id).Some?
      && (record.Keys <= Columns ==> FindById(t'.rows, id) == Some(Apply(redirect, record["id" := Int(id)])))
      && (record.Keys <= Columns ==> forall c :: c in record ==> FindById(t'.rows, id).value[c] == UpdateValue(c, record[c]))
      && (!(record.Keys <= Columns) ==> t' == t)
  {
    var k :| 0 <= k < |t.rows| && t.rows[k] == redirect;
    assert WellFormedRow(t.rows[k]);
    var id := redirect["id"].i;
    assert redirect["id"] == Int(id);
    var data := record["id" := Int(id)];
    assert Submit(t, Some(redirect), record) == TableUpdate(t, data, id).0;
    assert UpdateValue("id", Int(id)) == Int(id);
    assert NewId(data, id) == id;
    assert !IdTakenByOther(t.rows, id, id);
    assert t.created && data != map[];
    assert UpdateAccepted(t, data, id) <==> record.Keys <= Columns;
    UpdateSpec(t, data, id);
    var t' := TableUpdate(t, data, id).0;
    if record.Keys <= Columns {
      assert t'.rows[k] == Apply(t.rows[k], data);
      assert Get(t'.rows[k], "id") == Int(id);
      FindByIdAt(t'.rows, k, id);
    } else {
      assert t' == t;
    }
  }

  /** The defaults `setDefaultValues` sets from a mapping. */
  function DefaultsFor(redirect: Row): (d: map<string, Val>)
    ensures d.Keys == {"cfcr_is_active", "cfcr_post_or_page", if Get(redirect, "post_type") == Str("post") then "cfcr_post" else "cfcr_page"}
  {
    var d := map["cfcr_is_active" := Get(redirect, "is_active"), "cfcr_post_or_page" := Get(redirect, "post_type")];
    if Get(redirect, "post_type") == Str("post") then d["cfcr_post" := Get(redirect, "post_id")]
    else d["cfcr_page" := Get(redirect, "post_id")]
  }

  /** Submitting the form with the defaults drawn from a stored mapping
      writes back its post type and post unchanged, and its active flag
      unchanged except that an empty or NULL flag is written as "0". */
  lemma DefaultsRoundTrip(redirect: Row, eventId: Val, event: map<string, Val>, isTemplate: bool, postTitle: Val)
    requires WellFormedRow(redirect)
    ensures var record := Submission(eventId, event, isTemplate, DefaultsFor(redirect), postTitle);
      && Coerce("post_type", record["post_type"]) == redirect["post_type"]
      && Coerce("post_id", record["post_id"]) == redirect["post_id"]
      && Coerce("is_active", record["is_active"]) ==
           (if redirect["is_active"] in {Str(""), Null} then Str("0") else redirect["is_active"])
  {
    var values := DefaultsFor(redirect);
    assert ChosenPostId(values) == redirect["post_id"];
    assert redirect["is_active"] == Coerce("is_active", redirect["is_active"]);
    assert redirect["post_type"] == Coerce("post_type", redirect["post_type"]);
    assert redirect["post_id"] == Coerce("post_id", redirect["post_id"]);
    CoerceIdempotent("is_active", redirect["is_active"]);
  }

  /** The form object of the tab. */
  class CfcrForm {
    const store: Store
    /** The event's fields, empty when the event could not be read. */
    var event: map<string, Val>
    var eventId: Val
    var isTemplate: bool
    /** The event's mapping, read when the form was prepared. */
    var redirect: Option<Row>
    /** The cached listings of posts and of pages. */
    var posts: map<int, string>
    var pages: map<int, string>
    var defaults: map<string, Val>

    constructor (store: Store, eventId: Val, event: map<string, Val>, isTemplate: bool, redirect: Option<Row>)
      ensures this.store == store && this.eventId == eventId && this.event == event
      ensures this.isTemplate == isTemplate && this.redirect == redirect
      ensures posts == map[] && pages == map[] && defaults == map[]
    {
      this.store := store;
      this.eventId := eventId;
      this.event := event;
      this.isTemplate := isTemplate;
      this.redirect := redirect;
      posts := map[];
      pages := map[];
      defaults := map[];
    }

    /** `getWPPosts`: the cached listing for the post type when it is not
        empty, otherwise the published posts of that type, which are then
        cached ("post" in the post cache, any other type in the page cache). */
    method GetWPPosts(postType: string, query: string -> seq<PostEntry>) returns (result: map<int, string>)
      modifies this
      ensures result == Listing(if postType == "post" then old(posts) else old(pages), query(postType))
      ensures postType == "post" ==> posts == result && pages == old(pages)
      ensures postType != "post" ==> pages == result && posts == old(posts)
      ensures event == old(event) && eventId == old(eventId) && isTemplate == old(isTemplate)
      ensures redirect == old(redirect) && defaults == old(defaults)
    {
      var cached := if postType == "post" then posts else pages;
      if cached != map[] {
        return cached;
      }
      var entries := query(postType);
      result := map[];
      var i := 0;
      while i < |entries|
        invariant 0 <= i <= |entries|
        invariant result == PostsById(entries[..i])
      {
        assert entries[..i + 1][..i] == entries[..i];
        result := result[entries[i].id := entries[i].title];
        i := i + 1;
      }
      assert entries[..|entries|] == entries;
      if postType == "post" {
        posts := result;
      } else {
        pages := result;
      }
    }

    /** `setDefaultValues`: with a mapping, merge its active flag, post type
        and post into the form's defaults. */
    method SetDefaultValues()
      modifies this
      ensures redirect.None? ==> defaults == old(defaults)
      ensures redirect.Some? ==> defaults == old(defaults) + DefaultsFor(redirect.value)
      ensures event == old(event) && eventId == old(eventId) && isTemplate == old(isTemplate)
      ensures redirect == old(redirect) && posts == old(posts) && pages == old(pages)
    {
      if redirect.None? {
        return;
      }
      var r := redirect.value;
      var d := map["cfcr_is_active" := Get(r, "is_active"), "cfcr_post_or_page" := Get(r, "post_type")];
      if Get(r, "post_type") == Str("post") {
        d := d["cfcr_post" := Get(r, "post_id")];
      } else {
        d := d["cfcr_page" := Get(r, "post_id")];
      }
      defaults := defaults + d;
    }

    /** `postProcess`: with an event, write the submitted mapping (update when
        the form holds one, insert otherwise); the post title comes from the
        listing of the chosen post type. The post type select is a required
        element, so a submission always carries it as a string. */
    method PostProcess(values: map<string, Val>, query: string -> seq<PostEntry>)
      requires store.Valid()
      requires "cfcr_post_or_page" in values && values["cfcr_post_or_page"].Str?
      modifies this, store
      ensures store.Valid() && store.version == old(store.version)
      ensures event == old(event) && eventId == old(eventId) && isTemplate == old(isTemplate)
      ensures redirect == old(redirect) && defaults == old(defaults)
      ensures old(event) == map[] ==>
        store.Snapshot() == old(store.Snapshot()) && posts == old(posts) && pages == old(pages)
      ensures old(event) != map[] ==>
        var postType := values["cfcr_post_or_page"].s;
        var listing := Listing(if postType == "post" then old(posts) else old(pages), query(postType));
        var record := Submission(old(eventId), old(event), old(isTemplate), values, PostTitleFor(listing, ChosenPostId(values)));
        && store.Snapshot() == Submit(old(store.Snapshot()), old(redirect), record)
        && (postType == "post" ==> posts == listing && pages == old(pages))
        && (postType != "post" ==> pages == listing && posts == old(posts))
    {
      if event == map[] {
        return;
      }
      var postId := ChosenPostId(values);
      var postType := values["cfcr_post_or_page"].s;
      var listing := GetWPPosts(postType, query);
      var record := Submission(eventId, event, isTemplate, values, PostTitleFor(listing, postId));
      if redirect.Some? && !EmptyAt(redirect.value, "id") {
        var id := redirect.value["id"];
        var u := store.Update(record["id" := id], ToInt(id));
      } else {
        var r := store.Insert(record);
      }
    }
  }
}
