/** The CiviCRM hook handlers: the redirect tab on the event management
    screen, the menu file, the (unregistered) link in the event list, and the
    two `civicrm_post` handlers that keep the table in step with events:
    copying a template's mapping to an event made from it, and removing an
    event's mapping when the event is deleted. */
module Hooks {
  import opened Php
  import opened Db

  // ------------------------------------------------------------ the table

  /** The record `copy_redirect_for_event` inserts: the template's mapping
      with the new event's title and id, and no id of its own. */
  function CopyRecord(redirect: Row, event: map<string, Val>): (r: Row)
    ensures "id" !in r
    ensures "page_title" in r && r["page_title"] == Get(event, "title")
    ensures "entity_id" in r && r["entity_id"] == Get(event, "id")
    ensures forall c :: c in redirect && c !in {"id", "page_title", "entity_id"} ==> c in r && r[c] == redirect[c]
    ensures r.Keys == redirect.Keys + {"page_title", "entity_id"} - {"id"}
  {
    redirect["page_title" := Get(event, "title")]["entity_id" := Get(event, "id")] - {"id"}
  }

  /** Copying a stored mapping to an event with a title and an id inserts a
      second mapping: same page type, post and active flag as the template's,
      the event's id and title, a fresh id; the template's mapping stays. */
  lemma CopyForEventSpec(t: Table, redirect: Row, event: map<string, Val>)
    requires WellFormed(t)
    requires redirect in t.rows
    requires "id" in event && event["id"].Int?
    requires "title" in event && event["title"].Str?
    requires FindById(t.rows, t.nextId).None?
    ensures var (t', r) := TableInsert(t, CopyRecord(redirect, event));
      && WellFormed(t')
      && r.Some?
      && t'.rows == t.rows + [r.value]
      && r.value["entity_id"] == event["id"]
      && r.value["page_title"] == event["title"]
      && (forall c :: c in {"page_type", "post_id", "post_type", "post_title", "is_active"} ==> r.value[c] == redirect[c])
      && FindById(t.rows, r.value["id"].i).None?
      && redirect in t'.rows
  {
    var data := CopyRecord(redirect, event);
    var k :| 0 <= k < |t.rows| && t.rows[k] == redirect;
    assert WellFormedRow(t.rows[k]);
    assert AssignedId(t, data) == t.nextId;
    assert InsertAccepted(t, data);
    InsertSpec(t, data);
    var row := TableInsert(t, data).1.value;
    forall c | c in {"page_type", "post_id", "post_type", "post_title", "is_active"} ensures row[c] == redirect[c] {
      assert row[c] == Coerce(c, redirect[c]);
    }
  }

  /** A stored row used as a where-clause matches exactly the rows equal to it. */
  lemma MatchesWholeRow(x: Row, r: Row)
    requires WellFormedRow(x) && WellFormedRow(r)
    ensures Matches(x, r) <==> x == r
  {
    if Matches(x, r) {
      forall c | c in r ensures x[c] == r[c] {
        assert Get(x, c) == Coerce(c, r[c]);
      }
    }
  }

  /** The result of `Event.get` for a template title: how many templates bear
      it and the id of the one found. */
  datatype TemplateReply = TemplateReply(count: nat, id: Val)

  /** The first guard of `create_redirect_from_template`, as written: the
      handler goes on for an `EventTemplate` object or a `create` operation. */
  predicate TemplateHookRuns(operation: string, objectName: string) {
    !(objectName != "EventTemplate" && operation != "create")
  }

  /** `create_redirect_from_template`: with a template title naming exactly one
      template that has an event mapping, copy that mapping to the object. */
  function FromTemplate(t: Table, operation: string, objectName: string, eventObject: map<string, Val>, template: TemplateReply): (t': Table)
    ensures !TemplateHookRuns(operation, objectName) || EmptyAt(eventObject, "template_title") || template.count != 1 ==> t' == t
    ensures t' == t || (|t'.rows| == |t.rows| + 1 && t'.rows[..|t.rows|] == t.rows)
  {
    if !TemplateHookRuns(operation, objectName) then t
    else if EmptyAt(eventObject, "template_title") then t
    else if template.count != 1 then t
    else
      match FindByEntity(t.rows, ToInt(template.id), "event")
      case None => t
      case Some(redirect) => TableInsert(t, CopyRecord(redirect, eventObject)).0
  }

  /** The template handler changes the table only by appending one copy of
      the template's mapping, and only when the guard lets it through, the
      object has a template title and exactly one template bears it. */
  lemma FromTemplateSpec(t: Table, operation: string, objectName: string, eventObject: map<string, Val>, template: TemplateReply)
    requires WellFormed(t)
    ensures var t' := FromTemplate(t, operation, objectName, eventObject, template);
      var found := FindByEntity(t.rows, ToInt(template.id), "event");
      && WellFormed(t')
      && (t' == t || (
            && TemplateHookRuns(operation, objectName)
            && !EmptyAt(eventObject, "template_title")
            && template.count == 1
            && found.Some?
            && var r := TableInsert(t, CopyRecord(found.value, eventObject)).1;
               r.Some? && t'.rows == t.rows + [r.value]))
      && (objectName != "EventTemplate" && operation != "create" ==> t' == t)
  {
    var t' := FromTemplate(t, operation, objectName, eventObject, template);
    var found := FindByEntity(t.rows, ToInt(template.id), "event");
    if TemplateHookRuns(operation, objectName) && !EmptyAt(eventObject, "template_title") && template.count == 1 && found.Some? {
      var data := CopyRecord(found.value, eventObject);
      InsertSpec(t, data);
      var (t2, r) := TableInsert(t, data);
      assert t' == t2;
      if r.Some? {
        assert t2.rows == t.rows + [r.value];
      } else {
        assert t2 == t;
      }
    } else {
      assert t' == t;
    }
  }

  /** When the template handler runs for an event object with an id and a
      title, and exactly one template with a mapping bears the title, the
      table gains one mapping for the new event: the template's page type,
      post and active flag under the event's id and title, in a fresh row
      after the old ones, which all stay. */
  lemma FromTemplateCopies(t: Table, operation: string, objectName: string, eventObject: map<string, Val>, template: TemplateReply)
    requires WellFormed(t)
    requires FindById(t.rows, t.nextId).None?
    requires TemplateHookRuns(operation, objectName)
    requires !EmptyAt(eventObject, "template_title") && template.count == 1
    requires FindByEntity(t.rows, ToInt(template.id), "event").Some?
    requires "id" in eventObject && eventObject["id"].Int?
    requires "title" in eventObject && eventObject["title"].Str?
    ensures var t' := FromTemplate(t, operation, objectName, eventObject, template);
      var redirect := FindByEntity(t.rows, ToInt(template.id), "event").value;
      && |t'.rows| == |t.rows| + 1
      && t'.rows[..|t.rows|] == t.rows
      && var copy := t'.rows[|t.rows|];
      && copy["entity_id"] == eventObject["id"]
      && copy["page_title"] == eventObject["title"]
      && copy["page_type"] == Str("event")
      && (forall c :: c in {"post_id", "post_type", "post_title", "is_active"} ==> copy[c] == redirect[c])
      && FindById(t.rows, copy["id"].i).None?
      && FindByEntity(t'.rows, eventObject["id"].i, "event").Some?
  {
    var redirect := FindByEntity(t.rows, ToInt(template.id), "event").value;
    FromTemplateInserts(t, operation, objectName, eventObject, template);
    CopyForEventSpec(t, redirect, eventObject);
    var (t', r) := TableInsert(t, CopyRecord(redirect, eventObject));
    var copy := r.value;
    assert t'.rows[|t.rows|] == copy;
    assert !EmptyStr("event");
    assert Get(redirect, "page_type") == Str("event");
    assert copy["page_type"] == redirect["page_type"];
    assert EntityMatch(t'.rows[|t.rows|], eventObject["id"].i, "event");
  }

  /** Past the guards, the template handler is the insert of the copy. */
  lemma FromTemplateInserts(t: Table, operation: string, objectName: string, eventObject: map<string, Val>, template: TemplateReply)
    requires TemplateHookRuns(operation, objectName)
    requires !EmptyAt(eventObject, "template_title") && template.count == 1
    requires FindByEntity(t.rows, ToInt(template.id), "event").Some?
    ensures FromTemplate(t, operation, objectName, eventObject, template) ==
      TableInsert(t, CopyRecord(FindByEntity(t.rows, ToInt(template.id), "event").value, eventObject)).0
  {
  }

  /** `delete_redirect_for_event`: on deletion of an event, delete its event
      mapping, using the whole stored row as the where-clause. */
  function DeleteForEvent(t: Table, operation: string, objectName: string, objectId: int): (t': Table)
    ensures objectName != "Event" || operation != "delete" ==> t' == t
    ensures |t'.rows| <= |t.rows|
    ensures forall x :: x in t'.rows ==> x in t.rows
  {
    if objectName != "Event" || operation != "delete" then t
    else
      match FindByEntity(t.rows, objectId, "event")
      case None => t
      case Some(redirect) => TableDelete(t, redirect).0
  }

  /** Deleting an event removes the event's first mapping and nothing else;
      any other operation or object leaves the table alone. */
  lemma DeleteForEventSpec(t: Table, operation: string, objectName: string, objectId: int)
    requires WellFormed(t)
    ensures var t' := DeleteForEvent(t, operation, objectName, objectId);
      var found := FindByEntity(t.rows, objectId, "event");
      && WellFormed(t')
      && (objectName != "Event" || operation != "delete" || found.None? ==> t' == t)
      && (objectName == "Event" && operation == "delete" && found.Some? ==>
            && found.value !in t'.rows
            && |t'.rows| == |t.rows| - 1
            && (forall x :: x in t.rows && x != found.value ==> x in t'.rows)
            && (forall x :: x in t'.rows ==> x in t.rows))
  {
    var found := FindByEntity(t.rows, objectId, "event");
    if objectName == "Event" && operation == "delete" && found.Some? {
      var r := found.value;
      var k :| 0 <= k < |t.rows| && t.rows[k] == r;
      assert WellFormedRow(r);
      assert t.created;
      assert r != map[] by { assert "id" in r; }
      DeleteSpec(t, r);
      var t' := TableDelete(t, r).0;
      forall x | x in t.rows ensures Matches(x, r) <==> x == r {
        var j :| 0 <= j < |t.rows| && t.rows[j] == x;
        MatchesWholeRow(t.rows[j], r);
      }
      OnlyOneCopy(t.rows, r);
      RemainingCount(t.rows, r);
    }
  }

  /** Ids are unique, so a row occurs once in the table. */
  lemma OnlyOneCopy(rows: seq<Row>, r: Row)
    requires UniqueIds(rows)
    requires forall i :: 0 <= i < |rows| ==> WellFormedRow(rows[i])
    requires r in rows
    ensures multiset(rows)[r] == 1
  {
    var k :| 0 <= k < |rows| && rows[k] == r;
    assert rows == rows[..k] + [r] + rows[k + 1..];
    assert r !in rows[..k] by {
      forall j | 0 <= j < k ensures rows[j] != r {
        assert Get(rows[j], "id") != Get(rows[k], "id");
      }
    }
    assert r !in rows[k + 1..] by {
      forall j | k < j < |rows| ensures rows[j] != r {
        assert Get(rows[k], "id") != Get(rows[j], "id");
      }
    }
    assert multiset(rows) == multiset(rows[..k]) + multiset{r} + multiset(rows[k + 1..]);
  }

  /** With a stored row as where-clause, a delete keeps all but its copies. */
  lemma {:induction false} RemainingCount(rows: seq<Row>, r: Row)
    requires WellFormedRow(r)
    requires forall i :: 0 <= i < |rows| ==> WellFormedRow(rows[i])
    ensures |Remaining(rows, r)| == |rows| - multiset(rows)[r]
  {
    if rows != [] {
      RemainingCount(rows[1..], r);
      MatchesWholeRow(rows[0], r);
      assert rows == [rows[0]] + rows[1..];
      assert multiset(rows) == multiset{rows[0]} + multiset(rows[1..]);
    }
  }

  // ------------------------------------------------------ screen elements

  /** A tab of the event management screen. `link` stands for the URL of
      `civicrm/event/manage/cfcr` with the event id as `id`. */
  datatype Tab = Tab(title: string, linkPath: string, linkId: Val, valid: Option<Row>, active: bool, cssClass: string)

  /** An entry of the event list's action links. */
  datatype Link = Link(name: string, url: string, qs: string)

  const TabKey: string := "cfcr"
  const TabTitle: string := "Caldera Forms Redirect"
  const TabPath: string := "civicrm/event/manage/cfcr"
  const EventTabset: string := "civicrm/event/manage"

  /** The plugin's CiviCRM menu file, relative to its source directory. */
  const MenuFile: string := "/xml/menu.xml"

  /** The hook handlers; the table is read and written through the store. */
  class CiviHooks {
    const store: Store

    constructor (store: Store)
      ensures this.store == store
    {
      this.store := store;
    }

    /** `add_redirect_tab`: on the event management tabset with an event id,
        set the `cfcr` tab, valid exactly when the event has a mapping; leave
        every other tab as it was. */
    method AddRedirectTab(tabsetName: string, tabs: map<string, Tab>, context: map<string, Val>) returns (tabs': map<string, Tab>)
      ensures tabsetName != EventTabset || EmptyAt(context, "event_id") ==> tabs' == tabs
      ensures tabsetName == EventTabset && !EmptyAt(context, "event_id") ==>
        && tabs'.Keys == tabs.Keys + {TabKey}
        && tabs'[TabKey] == Tab(TabTitle, TabPath, context["event_id"],
                                 FindByEntity(store.rows, ToInt(context["event_id"]), "event"), true, "ajaxForm")
      ensures forall k :: k in tabs && k != TabKey ==> k in tabs' && tabs'[k] == tabs[k]
    {
      if tabsetName != EventTabset {
        return tabs;
      }
      if EmptyAt(context, "event_id") {
        return tabs;
      }
      var valid := FindByEntity(store.rows, ToInt(context["event_id"]), "event");
      tabs' := tabs[TabKey := Tab(TabTitle, TabPath, context["event_id"], valid, true, "ajaxForm")];
    }

    /** `register_xml_menu_file`: append the plugin's menu file to the list. */
    method RegisterXmlMenuFile(files: seq<string>, srcDir: string) returns (files': seq<string>)
      ensures |files'| == |files| + 1
      ensures files'[..|files|] == files
      ensures files'[|files|] == srcDir + MenuFile
    {
      files' := files + [srcDir + MenuFile];
    }

    /** `add_redirect_link`: in the event list, append the link to the
        redirect form, whose query string carries the event id placeholder. */
    method AddRedirectLink(operation: string, objectName: string, links: seq<Link>) returns (links': seq<Link>)
      ensures operation != "event.manage.list" || objectName != "Event" ==> links' == links
      ensures operation == "event.manage.list" && objectName == "Event" ==>
        links' == links + [Link(TabTitle, TabPath, "reset=1&id=%%id%%")]
    {
      if operation != "event.manage.list" {
        return links;
      }
      if objectName != "Event" {
        return links;
      }
      links' := links + [Link(TabTitle, TabPath, "reset=1&id=%%id%%")];
    }

    method CopyRedirectForEvent(redirect: Row, event: map<string, Val>)
      requires store.Valid()
      modifies store
      ensures store.Valid()
      ensures store.Snapshot() == TableInsert(old(store.Snapshot()), CopyRecord(redirect, event)).0
      ensures store.version == old(store.version)
    {
      var copy := redirect;
      copy := copy["page_title" := Get(event, "title")];
      copy := copy["entity_id" := Get(event, "id")];
      copy := copy - {"id"};
      var result := store.Insert(copy);
    }

    method CreateRedirectFromTemplate(operation: string, objectName: string, eventObject: map<string, Val>, template: TemplateReply)
      requires store.Valid()
      modifies store
      ensures store.Valid()
      ensures store.Snapshot() == FromTemplate(old(store.Snapshot()), operation, objectName, eventObject, template)
      ensures store.version == old(store.version)
    {
      if objectName != "EventTemplate" && operation != "create" {
        return;
      }
      if EmptyAt(eventObject, "template_title") {
        return;
      }
      if template.count > 1 || template.count == 0 {
        return;
      }
      var redirect := FindByEntity(store.rows, ToInt(template.id), "event");
      if redirect.None? {
        return;
      }
      FromTemplateInserts(store.Snapshot(), operation, objectName, eventObject, template);
      CopyRedirectForEvent(redirect.value, eventObject);
    }

    method DeleteRedirectForEvent(operation: string, objectName: string, objectId: int)
      requires store.Valid()
      modifies store
      ensures store.Valid()
      ensures store.Snapshot() == DeleteForEvent(old(store.Snapshot()), operation, objectName, objectId)
      ensures store.version == old(store.version)
    {
      if objectName != "Event" {
        return;
      }
      if operation != "delete" {
        return;
      }
      var redirect := FindByEntity(store.rows, objectId, "event");
      if redirect.None? {
        return;
      }
      var n := store.Delete(redirect.value);
    }
  }
}
