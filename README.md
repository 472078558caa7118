# cfc-redirect in Dafny

cfc-redirect is a WordPress plugin for sites running CiviCRM. It sends
visitors of a CiviCRM event registration page or contribution page to a
WordPress post or page chosen for that event or page. It keeps one table,
`cfc_redirects`, that maps an entity id and a page type to a post.

The model covers six parts of the plugin:

- the data-access class over that table (`Db`);
- the REST resource `/cfcr-api/v2/r` that reads and writes it, together with the parts of the WordPress REST server it relies on: route matching, argument checks and casts, and permission callbacks (`Rest`);
- the front-end dispatcher that classifies the page and redirects (`Dispatcher`);
- the CiviCRM hook handlers (`Hooks`);
- the "Caldera Forms Redirect" tab of the event management screen (`EventForm`);
- the CiviCRM API v3 entity `CFCRedirect` (`ApiV3`).

PHP's loose values (`null`, integers and strings), `empty`, the `(int)` and
`(string)` casts and `explode` are modelled in `Php`.

The table is a value, `Db.Table`: its rows in storage order, the
AUTO_INCREMENT counter, and whether `CREATE TABLE` has run. Each SQL
statement is a function on that value. The classes whose fields the plugin
updates in place are Dafny classes, and their methods are proved to follow
those functions:

- the data-access object `Db.Store`;
- the REST controller `Rest.RedirectController`;
- the plugin object `Dispatcher.Plugin`, which remembers the page type;
- the hook object `Hooks.CiviHooks`;
- the form `EventForm.CfcrForm`, with its cached post listings.

Host services are parameters of the operations that use them:

- the post type and title of a post;
- the CiviCRM `getsingle` call, which either throws or returns an array;
- the current user's login state and capabilities;
- the `WP_Query` of published posts;
- the template lookup of `Event.get`.

The dispatcher reaches the table the way the plugin does: by a GET of
`/cfcr-api/v2/r/entity/<id>` served in process (`Rest.ServeGet`).

## Model

| member | source | states |
|---|---|---|
| Php.Get | src/Api/Rest/Redirect.php:155-165 | Reading a missing key gives null; a present key gives its value. |
| Php.Explode | src/Plugin.php:189-193 | `explode('/', q)` yields at least one piece, and no piece contains the separator. |
| Php.ImplodeExplode | src/Plugin.php:189-193 | Joining the pieces of a query path with '/' gives the path back. |
| Php.ExplodeImplode | src/Plugin.php:189-193 | Splitting a join of '/'-free pieces gives the same pieces back. |
| Php.ExplodeSegment | src/Plugin.php:189-193 | A '/'-free prefix is glued to the first piece of what follows it. |
| Php.DigitPrefix | src/Plugin.php:231 | The digits an `int` parameter keeps are the longest all-digit prefix of the string. |
| Php.NatToDecimal | src/Plugin.php:234 | `%d` of a non-negative number is a non-empty string of digits. |
| Php.DecimalOfNat | src/Plugin.php:234 | Reading back the digits printed for n gives n. |
| Php.IntRoundTrip | src/Plugin.php:234 | Printing any integer with `%d` and casting it back with `(int)` gives the integer; the printed form is numeric. |
| Db.FindById | src/Api/DB.php:122-128 | `get_by_id` finds nothing exactly when no row has the id; a found row is in the table and has the id. |
| Db.FindByEntity | src/Api/DB.php:138-146 | `get_by_entity_id` finds nothing exactly when no row matches the entity id (and the page type unless it is empty); a found row is a matching row of the table. |
| Db.FindByEntityFirst | src/Api/DB.php:138-146 | The row found is the first match in table order. |
| Db.FindByIdAppend | src/Api/DB.php:85-93 | After appending a row under an id no row had, `get_by_id` finds that row. |
| Db.FindByIdAt | src/Api/DB.php:122-128 | With unique ids, `get_by_id` finds the row at the index that holds the id. |
| Db.TableInsert | src/Api/DB.php:85-93 | `insert` returns the row exactly when it is accepted; a failure changes nothing; a success adds one row after the old ones, which stay, and the row returned is that new row with the assigned id. Db.InsertSpec adds well-formedness and the fresh id. |
| Db.InsertSpec | src/Api/DB.php:85-93 | `insert` succeeds exactly when it is accepted: the table exists, the keys are columns, no NOT NULL column gets null, and the id is free. On success it appends one well-formed row under a fresh id, leaves the earlier rows as they were, reads that row back and moves the counter past the id. On failure it returns false and changes nothing. |
| Db.NewRowWellFormed | src/Api/DB.php:200-223 | The row an accepted insert stores has every column, each of its column's type. |
| Db.AppendKeepsWellFormed | src/Api/DB.php:85-93 | Appending a well-formed row under a free id keeps the ids unique. |
| Db.InsertDefaultsInactive | src/Api/DB.php:212 | A row inserted without `is_active` is stored with "0" (the column's DEFAULT). |
| Db.CoerceIdempotent | src/Api/DB.php:200-223 | Storing a value already of the column's type keeps it. |
| Db.UpdateValueWellTyped | src/Api/DB.php:200-223 | A value written by `update` has its column's type; only `is_active` can become null. |
| Db.TableUpdate | src/Api/DB.php:103-113 | `update` returns false exactly when rejected, and then changes nothing; it always keeps the row count and the counter; a row it returns is in the table and has the id asked for. Db.UpdateSpec adds what happens to each row. |
| Db.UpdateSpec | src/Api/DB.php:103-113 | `update` returns false exactly when rejected, and then changes nothing. Otherwise it keeps the row count and every row with another id, keeps the table well formed, and returns the row re-read by the given id (the changed row when the id is not changed). |
| Db.UpdateRowsWellFormed | src/Api/DB.php:103-113 | Every row an update rewrites is still well formed. |
| Db.UpdateRowsUnique | src/Api/DB.php:103-113 | An update whose new id collides with no other row keeps ids unique. |
| Db.UpdateFindsApplied | src/Api/DB.php:103-113 | An update that does not set the id re-reads the changed row. |
| Db.Remaining | src/Api/DB.php:167-171 | The rows `delete` keeps are exactly the rows that do not match the WHERE clause. |
| Db.RemainingUnique | src/Api/DB.php:167-171 | Deleting keeps ids unique. |
| Db.TableDelete | src/Api/DB.php:167-171 | `delete` returns false exactly when rejected, and then changes nothing; otherwise exactly the non-matching rows stay and the count plus the rows left is the old row count. |
| Db.DeleteSpec | src/Api/DB.php:167-171 | `delete` returns false exactly when rejected (no table, empty or unknown WHERE), and then changes nothing. Otherwise the remaining rows are exactly the non-matching ones, and the count plus the remaining rows is the old row count. |
| Db.TableUpgrade | src/Api/DB.php:178-192 | `upgrade_db` never touches rows or the counter, creates the table exactly when it is missing or no version is stored, and leaves the version at 0.1. |
| Db.UpgradeSpec | src/Api/DB.php:178-192 | `upgrade_db` creates the table only when no version is stored, never touches rows, leaves the version at 0.1, and a second run changes nothing. |
| Db.Store.constructor | src/Api/DB.php:57-65 | A fresh site has no table, no rows and no stored version. |
| Db.Store.Insert | src/Api/DB.php:85-93 | The object's new state and result are those of `TableInsert`; the table stays well formed. |
| Db.Store.Update | src/Api/DB.php:103-113 | The object's new state and result are those of `TableUpdate`; the table stays well formed. |
| Db.Store.Delete | src/Api/DB.php:167-171 | The object's new state and count are those of `TableDelete`; the table stays well formed. |
| Db.Store.UpgradeDb | src/Api/DB.php:178-192 | The table and stored version become those of `TableUpgrade`. |
| Rest.PrepareItem | src/Api/Rest/Redirect.php:318-330 | The response keeps exactly the fields that are schema properties, with their values. |
| Rest.PrepareIdempotent | src/Api/Rest/Redirect.php:318-330 | Filtering a response twice is filtering it once. |
| Rest.PrepareKeepsStoredRow | src/Api/Rest/Redirect.php:376-416 | A stored row goes out unchanged: the schema lists exactly the table's columns. |
| Rest.PrepareAll | src/Api/Rest/Redirect.php:130-138 | The collection has one filtered item per row, in table order. |
| Rest.ItemArgs | src/Api/Rest/Redirect.php:427-484 | With no names, every argument; otherwise exactly the named arguments, with their definitions. |
| Rest.ValidatedValuesFitSchema | src/Api/Rest/Redirect.php:441-473 | A page type or post type that passes its validator is stored as one of its enum strings; an `is_active` that passes is 0 or 1. |
| Rest.MatchRoute | src/Api/Rest/Redirect.php:56-100 | The base route answers exactly the base path; the id and entity routes answer only paths under it whose parameter is digits. |
| Rest.PathsRoundTrip | src/Api/Rest/Redirect.php:80-98 | A printed id reaches the id (or entity) handler with the same id when it is not negative; a negative id reaches no route. |
| Rest.AuthorizationStatusCode | src/Api/Rest/Redirect.php:492-500 | 401 exactly for an anonymous caller, 403 exactly for a logged-in one. |
| Rest.PermissionCheck | src/Api/Rest/Redirect.php:110-114 | Reads are always allowed. Create and delete are allowed exactly when the caller holds the capability; otherwise they fail with `rest_forbidden` and the 401/403 status. |
| Rest.GetItems | src/Api/Rest/Redirect.php:122-144 | An empty table answers an empty array; otherwise the collection of every row filtered, in table order. |
| Rest.ItemLookup | src/Api/Rest/Redirect.php:155-165 | The row `get_item` looks up is a row of the table, with the entity id asked for when `entity_id` is set and with the id asked for otherwise. |
| Rest.GetItem | src/Api/Rest/Redirect.php:153-178 | `get_item` answers an empty array or one object, never a `WP_Error`; it ends the request (`Fatal`) exactly when an `entity_id` that is not an integer reaches the `int` parameter of `get_by_entity_id`. |
| Rest.GetItemDispatch | src/Api/Rest/Redirect.php:153-178 | With an integer entity id, the entity lookup (by page type when one is set); with a non-integer one, the request ends; otherwise the id lookup. A found row is answered whole; absence is an empty array. |
| Rest.EntityFor | src/Api/Rest/Redirect.php:198 | The CRM entity is Event exactly for the page type "event", ContributionPage otherwise. |
| Rest.WriteParamsSpec | src/Api/Rest/Redirect.php:191-212 | The written parameters carry the post's type and title. `page_title` is the CRM title exactly when the reply is not flagged as an error. Nothing else of the request changes. |
| Rest.DuplicatePostRejected | src/Api/Rest/Redirect.php:200-205 | A POST for an entity and page type that already have a mapping is refused with `rest_create_error` and changes nothing, whether or not an id is given; PUT and PATCH are never refused for it. |
| Rest.CreateOrUpdate | src/Api/Rest/Redirect.php:187-249 | `create_item` answers a `WP_Error` exactly for a duplicate POST or a CRM exception, and then changes nothing; it ends the request only when an `id` is given that is not an integer. |
| Rest.CrmFailureAborts | src/Api/Rest/Redirect.php:207-222 | A CRM exception aborts the write and is reported with its message. |
| Rest.UpdateKeepsId | src/Api/Rest/Redirect.php:225-233 | With an id, the row with that id is updated; row count and other rows are kept. The updated row is answered when the id is an integer, and the request ends after the update when it is not. A rejected update answers an empty array and changes nothing. |
| Rest.NonNumericIdAborts | src/Api/DB.php:103-128 | An `id` that is not an integer ends the request exactly when its UPDATE succeeds, and the UPDATE has then already been applied with the id as the database converts it; a failed UPDATE answers an empty array and changes nothing. |
| Rest.CreateThenGet | src/Api/Rest/Redirect.php:187-249 | A POST with no id for an unmapped entity inserts one row. The entity lookup then answers exactly the reply, with the posted entity, page type and post, and a second identical POST is refused. |
| Rest.InsertThenLookup | src/Api/Rest/Redirect.php:234-240 | An accepted insert for an unmapped entity is what the entity lookup finds next. |
| Rest.InsertAppends | src/Api/DB.php:85-93 | An accepted insert appends its new row, which is well formed, and reads it back. |
| Rest.LookupAppended | src/Api/Rest/Redirect.php:153-178 | After a matching row is appended for an unmapped entity, `get_item` by entity answers that row. |
| Rest.FindByEntityAppend | src/Api/DB.php:138-146 | Appending the first matching row makes it the one `get_by_entity_id` finds. |
| Rest.MatchesId | src/Api/DB.php:167-171 | A delete by id matches exactly the rows with that id. |
| Rest.RemoveItems | src/Api/Rest/Redirect.php:276-291 | `delete_item` always answers `[]` (a count has no schema property); the rows left are the non-matching ones after an accepted delete, and the table is unchanged otherwise. |
| Rest.DeleteByIdRemoves | src/Api/Rest/Redirect.php:276-291 | Deleting by id leaves no row with that id, keeps every other row, and answers `[]`. |
| Rest.Sanitize | src/Api/Rest/Redirect.php:427-484 | An integer argument is cast to an integer, a string argument to a string. |
| Rest.CheckArgs | src/Api/Rest/Redirect.php:56-76 | A request passes exactly when every required argument is set and every given argument validates. It then keeps its keys and casts the registered arguments; otherwise it fails with a 400. |
| Rest.CheckedCreateArgs | src/Api/Rest/Redirect.php:64-69 | What passes the create route's arguments has integer ids and a page type of the enum; the entity id is the integer cast of the one sent and the page type is the one sent. |
| Rest.IdArgChecked | src/Api/Rest/Redirect.php:70-75 | The delete route's id passes exactly when it is an integer or integer string, and is then cast. |
| Rest.IntArgPasses | src/Api/Rest/Redirect.php:80-98 | A required integer argument given as an integer passes with the parameters unchanged. |
| Rest.ServeCreate | src/Api/Rest/Redirect.php:258-267 | The table changes only when the arguments pass and the caller holds the capability; without the capability the answer is `rest_forbidden`. |
| Rest.ServeDelete | src/Api/Rest/Redirect.php:300-309 | The table changes only when the id passes and the caller holds the capability; without the capability the answer is `rest_forbidden`. |
| Rest.ServeGet | src/Api/Rest/Redirect.php:56-100 | A path no route matches answers `rest_no_route` 404; the base path answers the list. |
| Rest.ServeGetEntity | src/Api/Rest/Redirect.php:90-98 | A GET of `/r/entity/<n>` for n ≥ 0 is `get_item` with that entity id and the request's parameters; a negative n reaches no route. |
| Rest.ServeGetById | src/Api/Rest/Redirect.php:80-88 | A GET of `/r/<n>` for n ≥ 0 is the id lookup whatever page type accompanies it; a negative n reaches no route. |
| Rest.RedirectController.constructor | src/Api/Rest/Redirect.php:44-48 | The controller uses the given data-access object. |
| Rest.RedirectController.CreateItem | src/Api/Rest/Redirect.php:187-249 | The store's new state and the answer are those of `CreateOrUpdate`; the table stays well formed. |
| Rest.RedirectController.DeleteItem | src/Api/Rest/Redirect.php:276-291 | The store's new state and the answer are those of `RemoveItems`, the answer being `[]`; the table stays well formed. |
| Dispatcher.IntersectCount | src/Plugin.php:265 | The count of segments that are tokens never exceeds the segment count. |
| Dispatcher.IntersectCountByMultiset | src/Plugin.php:265 | The count is the sum of how often each of the three tokens occurs, repetitions included. |
| Dispatcher.PageTypeOf | src/Plugin.php:216-222 | A classified path has a `civicrm` segment and a non-empty page type. |
| Dispatcher.ClassificationIgnoresOrder | src/Plugin.php:261-298 | Paths with the same segments, counted with repetition, are classified alike whatever their order. |
| Dispatcher.AllTokensClassify | src/Plugin.php:261-298 | A path holding all three event tokens is an event page; one holding all three contribution tokens is classified; the event check wins. |
| Dispatcher.RepeatedTokenClassifies | src/Plugin.php:265 | `civicrm/civicrm/civicrm` is classified as an event page although it names neither `event` nor `register`. |
| Dispatcher.PostIdOf | src/Plugin.php:240-250 | An error or empty answer, or an inactive mapping, yields no post. |
| Dispatcher.Resolve | src/Plugin.php:138-167 | Outside the base page, without a `civicrm` segment, or without a non-empty id, the context passes through unchanged. |
| Dispatcher.RedirectIffActiveMapping | src/Plugin.php:138-167 | On a classified base page with id n, the visitor is redirected exactly when n > 0 and the entity has an active mapping of that page type naming a post, and then to that post. |
| Dispatcher.PostOfEntity | src/Plugin.php:231-252 | The in-process lookup yields the post of the entity's mapping of that page type when the mapping is active, and nothing for a negative id, no mapping or an inactive one; it never ends the request, since the route casts the entity id. |
| Dispatcher.Plugin.constructor | src/Plugin.php:71-79 | A new plugin object remembers no page type. |
| Dispatcher.Plugin.IsEventPage | src/Plugin.php:261-275 | True exactly when at least three segments are event tokens, and then the page type becomes "event"; otherwise it is kept. |
| Dispatcher.Plugin.IsContributionPage | src/Plugin.php:284-298 | True exactly when at least three segments are contribution tokens, and then the page type becomes "contribution_page"; otherwise it is kept. |
| Dispatcher.Plugin.IsRedirectPage | src/Plugin.php:216-222 | True exactly when the path is classified, and then the remembered page type is its class; otherwise it is kept. |
| Dispatcher.Plugin.PostIdForEntity | src/Plugin.php:231-252 | A negative id finds no post; Dispatcher.PostOfEntity gives the answer for the other ids. |
| Dispatcher.Plugin.MaybeDoRedirect | src/Plugin.php:138-181 | The outcome is `Resolve` of the context, the query and the table. On the base page with a classified path the remembered page type becomes its class; otherwise it is kept. |
| Hooks.CopyRecord | src/Civi/Hooks.php:214-224 | The copy has the event's title and id, no id of its own, and every other field of the template's mapping. |
| Hooks.CopyForEventSpec | src/Civi/Hooks.php:214-224 | Copying a stored mapping to an event inserts a second mapping under a fresh id, with the same page type, post and active flag and the event's id and title; the template's mapping stays. |
| Hooks.MatchesWholeRow | src/Civi/Hooks.php:203 | A stored row used as a WHERE clause matches exactly the rows equal to it. |
| Hooks.FromTemplate | src/Civi/Hooks.php:160-181 | Without the guard, a template title or exactly one template, the table is unchanged; in every case it is unchanged or gains one row after the old ones, which stay. |
| Hooks.FromTemplateSpec | src/Civi/Hooks.php:160-181 | The table changes only when the guard lets it through, the object has a template title, exactly one template bears it and that template has a mapping; then by appending one copy. |
| Hooks.FromTemplateCopies | src/Civi/Hooks.php:160-181 | When the guard passes for an event with an id and a title and exactly one template bears the title and has a mapping, one row is added after the old ones, which stay: the new event's id and title, page type "event", the template mapping's post, post type, post title and active flag, under an id no row had; the event's lookup then finds a mapping. |
| Hooks.FromTemplateInserts | src/Civi/Hooks.php:160-181 | Past the guards, the handler is the insert of the template mapping's copy. |
| Hooks.DeleteForEvent | src/Civi/Hooks.php:193-205 | Any other operation or object leaves the table alone; the table never grows and keeps only rows it had. |
| Hooks.DeleteForEventSpec | src/Civi/Hooks.php:193-205 | Deleting an event removes its event mapping and nothing else; the row count drops by one. Any other operation, object, or an unmapped event leaves the table alone. |
| Hooks.OnlyOneCopy | src/Civi/Hooks.php:203 | Since ids are unique, a stored row occurs once in the table. |
| Hooks.RemainingCount | src/Civi/Hooks.php:203 | A delete by a stored row removes exactly its copies. |
| Hooks.CiviHooks.constructor | src/Civi/Hooks.php:25-31 | The hooks use the given data-access object. |
| Hooks.CiviHooks.AddRedirectTab | src/Civi/Hooks.php:108-122 | On the event management tabset with an event id, the `cfcr` tab is set, valid exactly when the event has a mapping; every other tab is kept. Any other tabset, or no event id, leaves the tabs alone. |
| Hooks.CiviHooks.RegisterXmlMenuFile | src/Civi/Hooks.php:63-67 | The plugin's menu file is appended and the list is otherwise kept. |
| Hooks.CiviHooks.AddRedirectLink | src/Civi/Hooks.php:136-148 | In the event list, the redirect form's link is appended; elsewhere the links are kept. |
| Hooks.CiviHooks.CopyRedirectForEvent | src/Civi/Hooks.php:214-224 | The table becomes that of inserting the copy; it stays well formed. |
| Hooks.CiviHooks.CreateRedirectFromTemplate | src/Civi/Hooks.php:160-181 | The table becomes `FromTemplate` of the old one; it stays well formed. |
| Hooks.CiviHooks.DeleteRedirectForEvent | src/Civi/Hooks.php:193-205 | The table becomes `DeleteForEvent` of the old one; it stays well formed. |
| EventForm.ElementsToRender | src/CustomPHP/CRM/Event/Form/ManageEvent/CFCR.php:247-258 | The rendered names are exactly the form's elements that are its own. |
| EventForm.ElementsToRenderConcat | src/CustomPHP/CRM/Event/Form/ManageEvent/CFCR.php:247-258 | Filtering distributes over concatenation, so the form's order is kept. |
| EventForm.ValidateForm | src/CustomPHP/CRM/Event/Form/ManageEvent/CFCR.php:218-239 | A rejection reports at least one error, and only on the post type field or the field of the chosen post. |
| EventForm.ValidateFormSpec | src/CustomPHP/CRM/Event/Form/ManageEvent/CFCR.php:218-239 | The form is accepted exactly when an active redirect names a post type and a named post type comes with its post. Each missing piece is reported on its own field. |
| EventForm.AcceptedActiveHasPost | src/CustomPHP/CRM/Event/Form/ManageEvent/CFCR.php:160-162 | An accepted active submission with post type "post" or "page" carries a post id. |
| EventForm.PostsById | src/CustomPHP/CRM/Event/Form/ManageEvent/CFCR.php:345-350 | The listing has exactly the ids of the queried posts. |
| EventForm.PostsByIdLastWins | src/CustomPHP/CRM/Event/Form/ManageEvent/CFCR.php:345-350 | Each listed id maps to the title of its last entry. |
| EventForm.PostTitleFor | src/CustomPHP/CRM/Event/Form/ManageEvent/CFCR.php:177 | A title found is one of the listing's titles; for an integer post id one is found exactly when the id is listed. |
| EventForm.Submission | src/CustomPHP/CRM/Event/Form/ManageEvent/CFCR.php:163-178 | The record has every column but `id`: the event id, page type "event", the chosen post and its type, the active flag (0 when empty), and the event's title (the template title for a template). |
| EventForm.Submit | src/CustomPHP/CRM/Event/Form/ManageEvent/CFCR.php:183-194 | With a stored mapping the row count is kept; without one the table is unchanged or gains one row after the old ones, which stay. |
| EventForm.FirstSubmissionCreates | src/CustomPHP/CRM/Event/Form/ManageEvent/CFCR.php:183-194 | A first submission for an unmapped event stores one row. The event lookup then finds it with the chosen post, post type and active flag. |
| EventForm.LaterSubmissionUpdates | src/CustomPHP/CRM/Event/Form/ManageEvent/CFCR.php:183-190 | A later submission rewrites the event's mapping in place: same id, same row count, every other row unchanged, and the mapping read back by its id is the stored one with every submitted field set to the submitted value. A field that is no column makes the write fail and change nothing. |
| EventForm.DefaultsFor | src/CustomPHP/CRM/Event/Form/ManageEvent/CFCR.php:301-321 | The defaults are the active flag, the post type, and the post in the field of that type. |
| EventForm.DefaultsRoundTrip | src/CustomPHP/CRM/Event/Form/ManageEvent/CFCR.php:155-198 | Submitting the defaults drawn from a mapping writes back its post type, post and active flag, except that an empty or NULL flag is written as "0". |
| EventForm.CfcrForm.constructor | src/CustomPHP/CRM/Event/Form/ManageEvent/CFCR.php:68-91 | The form starts with the event, its id, the template flag and its mapping, and empty caches and defaults. |
| EventForm.CfcrForm.GetWPPosts | src/CustomPHP/CRM/Event/Form/ManageEvent/CFCR.php:330-365 | A non-empty cache is answered as is. Otherwise the fold of the query is answered and cached ("post" in the post cache, any other type in the page cache), and nothing else changes. |
| EventForm.CfcrForm.SetDefaultValues | src/CustomPHP/CRM/Event/Form/ManageEvent/CFCR.php:301-321 | Without a mapping nothing changes; with one, its defaults are merged in. |
| EventForm.CfcrForm.PostProcess | src/CustomPHP/CRM/Event/Form/ManageEvent/CFCR.php:155-198 | Without an event the table and the caches are untouched. Otherwise the table becomes `Submit` of the record built from the values and the listing of the chosen type, and stays well formed; that listing is now the cache of its type and the other cache is kept. The event, its id, the template flag, the mapping and the defaults never change. |
| ApiV3.CreateSpec | src/CustomPHP/api/v3/CFCRedirect.php:11-15 | The three fields are marked required; everything else in the spec is kept. |
| ApiV3.CreateSpecIdempotent | src/CustomPHP/api/v3/CFCRedirect.php:11-15 | Marking twice is marking once. |
| ApiV3.Forwarded | src/CustomPHP/api/v3/CFCRedirect.php:27-35 | Exactly the allowed parameters are forwarded, with their values. |
| ApiV3.Create | src/CustomPHP/api/v3/CFCRedirect.php:24-45 | The table changes only for a caller with the capability whose forwarded parameters pass the create route's checks. |
| ApiV3.CreateRefusesMappedEntity | src/CustomPHP/api/v3/CFCRedirect.php:24-45 | Only table columns are forwarded. Since create always POSTs, it is refused for an entity and page type that are already mapped, even when it names that mapping's id, and the table is unchanged. |
| ApiV3.Delete | src/CustomPHP/api/v3/CFCRedirect.php:54-66 | The table changes only for a caller with the capability and a set id; without the capability an integer id is refused with `rest_forbidden`. |
| ApiV3.DeleteRemovesById | src/CustomPHP/api/v3/CFCRedirect.php:54-66 | A permitted delete with an integer id removes the mapping with that id and keeps every other; without an id nothing changes. |
| ApiV3.Read | src/CustomPHP/api/v3/CFCRedirect.php:75-98 | With neither an id nor an entity id, the answer is the list, unwrapped. |
| ApiV3.ReadAnswers | src/CustomPHP/api/v3/CFCRedirect.php:75-98 | An id wins: id lookup, or no route for a negative id. Then an entity id: entity lookup with the page type when set. Otherwise the list. The answer is wrapped in a list exactly when both an id and an entity id are given. |

## Left out

- The database is an abstract table of typed values. Column widths and collation are left out, as are the UNSIGNED range and the 24-bit `mediumint` id: ids and counters are unbounded.
- Reading a row back returns the stored `Val`; wpdb's string-typed results are not modelled.
- Numeric strings are a sign and digits. Leading whitespace, decimals and exponents, which PHP also accepts, are left out.
- Route matching is exact and case-sensitive. The REST server's trailing-slash handling, and its JSON-schema checks beyond type and the validators, are left out.
- The REST server's error messages do not list the offending parameter names.
- Every `apply_filters` (`cfcr/api/rest/*`, `cfcr/plugin/before_do_redirect`) is the identity. The filterable capability is a parameter.
- `prepare_response_for_collection` and its `_links` are not part of this model: collection items are the filtered rows.
- `get_all` has no member of its own: `Rest.GetItems` reads the table's rows directly.
- `wp_safe_redirect`, `get_permalink` and `exit` are the outcome `Redirect(postId)`. A TypeError from the `int` parameter of `get_post_id_for_entity` is the outcome `Abort`.
- A TypeError inside a REST handler (`get_by_id` or `get_by_entity_id` given an id that is not an integer) is the answer `Fatal`; the error page WordPress shows then is not modelled.
- Concurrency is left out: two requests creating the same mapping at once could both pass the duplicate check.
- The CiviCRM result envelope of `civicrm_api3_create_success` is reduced to the REST answer it carries.
- The form's `preProcess` and `buildQuickForm` are not modelled: the constructor receives the event, its id, the template flag and the mapping they load.
- The rest of the plugin is not part of this model: the settings page, the CiviCRM directory registration, the plugin bootstrap, and the JavaScript front end.
- `add_redirect_link` is modelled although its registration is commented out (src/Civi/Hooks.php:49), so the plugin never calls it.
- Page classification counts segments with repetition, as the code does. It does not require all three distinct tokens (see `Dispatcher.RepeatedTokenClassifies`).
- The first guard of `create_redirect_from_template` is kept as written (`TemplateHookRuns`): it lets through every `create` and every `EventTemplate` operation.
