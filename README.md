# Attachment synchroniser of CiviCRM Profile Sync, in Dafny

The WordPress plugin "CiviCRM Profile Sync" keeps ACF fields and CiviCRM fields in step.
Its Attachment synchroniser, `CiviCRM_Profile_Sync_ACF_CiviCRM_Attachment`, connects an ACF
"File" field to a CiviCRM "File" Custom Field. This project models that one class.

- A file chosen in ACF is copied under CiviCRM's name and handed to CiviCRM. If the field
  is cleared or switched away from a file already sent, the old CiviCRM Attachment is
  deleted. A `civicrm_custom` broadcast is then mimicked, so that other synced fields clear
  too.
- A file name arriving from CiviCRM is mapped back to a WordPress Attachment. The
  synchroniser reuses an Attachment already linked to that file, or sideloads a duplicate.
- When CiviCRM untags a File, the WordPress Attachment linked to it is deleted.
- Each Attachment carries a two-key link record: the WordPress path and the CiviCRM path
  last synchronised. All the decisions above are driven by that record.

Modules, in dependency order:

- `Wrappers`: the `Option` type. It stands for PHP's `false` / `[]` results.
- `Paths`:
  - PHP `empty()` on strings;
  - `pathinfo(..., PATHINFO_BASENAME)`, taken as the part after the last `/`;
  - `str_replace` with one search string;
  - the substring test behind a `LIKE '%…%'` meta query.
- `CrmApi`: the wrappers over the CiviCRM API (`create`, `update`, `delete`, `get_by_id`,
  `get_for_entity`, `file_get_by_id`, `file_get_by_name`) and the getfields filter.
  - The API itself is not modelled. Each wrapper receives the reply the API would give.
  - Each returns its reading of that reply together with the requests it actually issued.
- `LinkMeta`: the link record (`metadata_get`, `metadata_set`, `metadata_delete`) and
  `query_by_file`.
- `Snapshot`: the pre-save list of file fields and its lookup.
- `Reconcile`: the three transforms (`value_get_for_civicrm`, `value_get_for_acf`,
  `entity_tag_pre_delete`) and `mimic_civicrm_custom`.
  - Each is a pure plan over the state it reads and the answers of the routines it calls.
  - A plan returns the result and every effect: requests, broadcasts, link record written,
    Attachment sideloaded or deleted.
  - The properties of the transforms are lemmas about these plans.
- `AttachmentSync`: the class `Attachment`. It holds:
  - the registration flags;
  - the snapshot and the per-filter cache;
  - the link records, stored files and CiviCRM File table;
  - logs of everything it sends out.

  Its methods follow the PHP methods step by step, including the loops. Each method is
  proved to change exactly what the corresponding plan or specification function says.

The environment is reduced to parameters:

- **Value oracles:** API replies; `makeFileName`'s new name; the copy's success; the
  duplicate's path, type and size; `attachment_url_to_postid`; `get_field`;
  `get_post_mime_type`.
- **Entity Tables:** the list the Field Group maps to.
- **Revision flag:** whether the post being saved is a revision.
- **Sideload:** the outcome of `media_handle_sideload`.
- **Stored state:** post-meta, `get_attached_file` and CiviCRM's File table are maps and
  sequences held by the class.

`metadata_get` always returns both keys, so its result is never `empty()`. The test at
line 1060 of the class therefore always passes, and the model goes straight to the
comparison of stored and current WordPress files. `file_get_by_id` answers `[]` rather
than `false`, so the `false` test at line 1617 never fires. A File that is not found then
yields an empty uri, and that uri matches every link record
(`Reconcile.PreDeleteMissingFileDeletesFirstLinked`). The link record built at lines
1664-1667 is never written: the Attachment and its record are deleted outright
(`Reconcile.PreDeleteLeavesNoLink`).

`get_attached_file` reads an Attachment's `_wp_attached_file` meta, so it gives "" for an
Attachment with no stored file. Such an Attachment with no linked WordPress path compares
equal at line 1063 and nothing is sent (`Reconcile.MissingUnlinkedFileIsQuiet`). Copying
the empty path fails, because PHP's `copy` refuses an empty file name.

## Model

| member | source | states |
|---|---|---|
| Paths.Basename | includes/acf/classes/cwps-acf-civicrm-attachment.php:419 | the base name is a '/'-free suffix of the path, preceded by '/' unless it is the whole path |
| Paths.BasenameOfJoin | includes/acf/classes/cwps-acf-civicrm-attachment.php:419 | a '/'-free name appended to a directory is exactly that path's base name |
| Paths.EmptyOccursEverywhere | includes/acf/classes/cwps-acf-civicrm-attachment.php:1508-1512 | the empty name is contained in every stored value, so it matches every linked Attachment, as `WP_Query` does when it drops an empty `meta_value` |
| Paths.ReplaceAllWithoutOccurrence | includes/acf/classes/cwps-acf-civicrm-attachment.php:423 | `str_replace` leaves a string with no occurrence of the search string unchanged |
| Paths.ReplaceAll | includes/acf/classes/cwps-acf-civicrm-attachment.php:423 | `str_replace` leaves the subject unchanged for an empty search string or a name replaced by itself, and keeps its length when the new name is as long as the old |
| Paths.ReplaceBasename | includes/acf/classes/cwps-acf-civicrm-attachment.php:419-423 | when the base name does not recur in the directory part, replacing it renames only the last component |
| Paths.DirectoryNamedLikeFileBasename | includes/acf/classes/cwps-acf-civicrm-attachment.php:419 | the base name of "/name/name" is `name` |
| Paths.ReplaceSlashName | includes/acf/classes/cwps-acf-civicrm-attachment.php:423 | `str_replace` turns a '/' followed by the base name into '/' followed by the new name, and goes on with the rest |
| Paths.DirectoryNamedLikeFileIsRenamed | includes/acf/classes/cwps-acf-civicrm-attachment.php:419-423 | when the base name also names a directory on the path, that directory is renamed too ("/2021/2021" becomes "/x/x") |
| CrmApi.Unwrap | includes/acf/classes/cwps-acf-civicrm-attachment.php:285-297 | a reply yields a record iff `is_error` is not 1 and `values` is non-empty, and the record is the last one (`array_pop`) |
| CrmApi.Create | includes/acf/classes/cwps-acf-civicrm-attachment.php:268-302 | Attachment.create is sent iff CiviCRM is initialised; a record comes back iff initialised, not flagged and non-empty, and it is the last one |
| CrmApi.Update | includes/acf/classes/cwps-acf-civicrm-attachment.php:317-335 | no id gives no record and no request; with an id the result is exactly `create`'s |
| CrmApi.Delete | includes/acf/classes/cwps-acf-civicrm-attachment.php:347-382 | the delete is sent iff initialised, and succeeds iff initialised, `is_error` is not 1 and `values` is exactly 1 |
| CrmApi.GetById | includes/acf/classes/cwps-acf-civicrm-attachment.php:518-553 | Attachment.get is sent iff initialised; a record comes back iff the reply is unflagged and non-empty, and it is the last one |
| CrmApi.GetForEntity | includes/acf/classes/cwps-acf-civicrm-attachment.php:566-611 | the request for `civicrm_<entity>` is sent iff the entity id is non-empty and CiviCRM is up; the answer is every record of an unflagged reply, otherwise none |
| CrmApi.FileGetById | includes/acf/classes/cwps-acf-civicrm-attachment.php:629-664 | File.get by id is sent iff initialised; failure is "nothing", and a success is the last record |
| CrmApi.FileGetByName | includes/acf/classes/cwps-acf-civicrm-attachment.php:680-715 | File.get by uri is sent iff initialised; failure is "nothing", and a success is the last record |
| CrmApi.PublicFields | includes/acf/classes/cwps-acf-civicrm-attachment.php:771-776 | the filter never lengthens the reply (what it keeps: `PublicFieldsExactly`) |
| CrmApi.PublicFieldsExactly | includes/acf/classes/cwps-acf-civicrm-attachment.php:771-776 | the filter keeps exactly the entries whose name is a public Attachment field (`file`, `content`), and never lengthens the reply |
| CrmApi.PublicFieldsAppend | includes/acf/classes/cwps-acf-civicrm-attachment.php:771-776 | the filter works entry by entry, so it keeps the reply's order |
| CrmApi.PublicFieldsKeepsPublic | includes/acf/classes/cwps-acf-civicrm-attachment.php:771-776 | a reply of public entries passes the filter unchanged |
| CrmApi.FieldsFor | includes/acf/classes/cwps-acf-civicrm-attachment.php:765-779 | "none" gives every entry, "public" the public ones, any other filter or a flagged or empty reply gives none |
| LinkMeta.ReadMeta | includes/acf/classes/cwps-acf-civicrm-attachment.php:1706-1716 | a stored "" or "0" reads back as "", any other value as itself |
| LinkMeta.MetadataGet | includes/acf/classes/cwps-acf-civicrm-attachment.php:1698-1721 | both keys always come back; an unset Attachment gives two empty paths; a stored record gives each path read through `empty()` (`ReadMeta`) |
| LinkMeta.MetadataSetThenGet | includes/acf/classes/cwps-acf-civicrm-attachment.php:1698-1739 | `metadata_set` then `metadata_get` gives each path written back through `empty()`: a non-empty path as written, "" or "0" as "" |
| LinkMeta.MetadataSetElsewhere | includes/acf/classes/cwps-acf-civicrm-attachment.php:1698-1739 | `metadata_set` on one Attachment leaves every other Attachment's record unchanged |
| LinkMeta.MetadataDeleteThenGet | includes/acf/classes/cwps-acf-civicrm-attachment.php:1698-1756 | `metadata_delete` then `metadata_get` gives two empty paths |
| LinkMeta.KeyValue | includes/acf/classes/cwps-acf-civicrm-attachment.php:1499-1503 | the query compares against the CiviCRM path when the source is "civicrm", and against the WordPress path otherwise |
| LinkMeta.QueryByFile | includes/acf/classes/cwps-acf-civicrm-attachment.php:1494-1555 | nothing iff no record's chosen key contains the name; otherwise the first such Attachment in ascending order |
| LinkMeta.QueryByEmptyNameFindsFirstLinked | includes/acf/classes/cwps-acf-civicrm-attachment.php:1494-1555 | an empty name finds the first linked Attachment whenever there is one |
| Snapshot.FileFieldsOf | includes/acf/classes/cwps-acf-civicrm-attachment.php:842-852 | the snapshot is never longer than the batch (what it holds: `FileFieldsOfExactly`) |
| Snapshot.FileFieldsOfExactly | includes/acf/classes/cwps-acf-civicrm-attachment.php:842-852 | an entry is in the snapshot iff it carries the saved id and a field of the batch has type "file", that selector and that old value |
| Snapshot.FileFieldsOfAppend | includes/acf/classes/cwps-acf-civicrm-attachment.php:842-852 | the snapshot is built field by field in field order |
| Snapshot.FindFileField | includes/acf/classes/cwps-acf-civicrm-attachment.php:888-902 | an entry found matches the selector and the id's integer cast (which entry: `FindFileFieldFindsFirst`) |
| Snapshot.FindFileFieldFindsFirst | includes/acf/classes/cwps-acf-civicrm-attachment.php:877-907 | nothing iff no entry has the selector and an id with the same integer cast; otherwise the first such entry |
| Snapshot.PreSaveThenLookup | includes/acf/classes/cwps-acf-civicrm-attachment.php:842-907 | looking up a fresh snapshot gives the old value of the first file field with the selector, when the ids cast alike, and nothing otherwise |
| Snapshot.NamedIdsShareLookups | includes/acf/classes/cwps-acf-civicrm-attachment.php:890-893 | all named ACF ids cast to 0, so an entry for "user_5" also answers a lookup for "term_3" |
| Reconcile.EditsFor | includes/acf/classes/cwps-acf-civicrm-attachment.php:1438-1475 | exactly one broadcast per Entity Table (their content: `EditsForShape`) |
| Reconcile.EditsForShape | includes/acf/classes/cwps-acf-civicrm-attachment.php:1438-1475 | one broadcast per Entity Table, in order, each an "edit" of one File Custom Field whose value is now empty |
| Reconcile.EditsForAppend | includes/acf/classes/cwps-acf-civicrm-attachment.php:1438-1475 | the broadcasts for a list of tables are those for its parts in turn |
| Reconcile.IsEmptyValue | includes/acf/classes/cwps-acf-civicrm-attachment.php:953 | PHP's `empty()` holds for exactly three ACF values: nothing, the number 0 and the empty string; an array carrying an Attachment id is never empty |
| Reconcile.ResolveId | includes/acf/classes/cwps-acf-civicrm-attachment.php:1017-1039 | a URL resolves to what `attachment_url_to_postid` answers; any other value resolves to 0 exactly when it is empty or an array holding 0 |
| Reconcile.CopyForCivicrm | includes/acf/classes/cwps-acf-civicrm-attachment.php:401-454 | a copy exists iff CiviCRM is up, the path is non-empty and the copy succeeds; its path is the file's path with the base name replaced |
| Reconcile.CopyStaysInDirectory | includes/acf/classes/cwps-acf-civicrm-attachment.php:419-438 | when the base name does not recur in the directory, the copy sits in the same directory under the new name |
| Reconcile.Retire | includes/acf/classes/cwps-acf-civicrm-attachment.php:990-1010 | without CiviCRM, retiring a link sends nothing and broadcasts nothing |
| Reconcile.RetireEffects | includes/acf/classes/cwps-acf-civicrm-attachment.php:990-1010 | with CiviCRM, retiring looks the File up by base name; if found, it deletes the last row found and broadcasts once per table |
| Reconcile.AttachedFile | includes/acf/classes/cwps-acf-civicrm-attachment.php:1042 | `get_attached_file` gives the stored path, and "" for an Attachment with none |
| Reconcile.Unchanged | includes/acf/classes/cwps-acf-civicrm-attachment.php:1060-1076 | with no stored file an Attachment is unchanged iff its linked WordPress path is empty; a file named "0" never is, since "0" reads back as ""; an unlinked Attachment is unchanged iff it has no file |
| Reconcile.ClearPlan | includes/acf/classes/cwps-acf-civicrm-attachment.php:953-1015 | clearing sends no file and writes no link; with no previous Attachment, or an unlinked one, nothing happens |
| Reconcile.SwitchRetire | includes/acf/classes/cwps-acf-civicrm-attachment.php:1080-1121 | nothing is retired unless the field switches away from a different, linked Attachment |
| Reconcile.SendPlan | includes/acf/classes/cwps-acf-civicrm-attachment.php:1042-1157 | an unchanged file is not sent; a file is sent iff a link record is written, and that record pairs the Attachment's non-empty stored file with the file sent |
| Reconcile.CivicrmPlan | includes/acf/classes/cwps-acf-civicrm-attachment.php:934-1159 | a file is sent iff a link record is written; the record is for the Attachment the value names and records the file sent; without CiviCRM nothing happens |
| Reconcile.AfterCivicrm | includes/acf/classes/cwps-acf-civicrm-attachment.php:1132-1138 | sending changes only the link records: CiviCRM's state, the File table and the stored files are untouched |
| Reconcile.ClearWithoutPriorIsQuiet | includes/acf/classes/cwps-acf-civicrm-attachment.php:953-969 | an empty value with no previous Attachment sends nothing and has no effect |
| Reconcile.ClearUnlinkedPriorIsQuiet | includes/acf/classes/cwps-acf-civicrm-attachment.php:984-987 | an empty value whose previous Attachment has no CiviCRM file sends nothing and has no effect |
| Reconcile.ClearRetiresPrevious | includes/acf/classes/cwps-acf-civicrm-attachment.php:984-1015 | clearing a linked field looks the File up by base name, deletes the last row found, broadcasts once per table, sends no file and writes no link |
| Reconcile.UnresolvedValueIsQuiet | includes/acf/classes/cwps-acf-civicrm-attachment.php:1018-1036 | a value naming no Attachment sends nothing and has no effect |
| Reconcile.UnchangedFileIsQuiet | includes/acf/classes/cwps-acf-civicrm-attachment.php:1042-1076 | an Attachment whose file equals the stored WordPress path is not sent again, and nothing happens |
| Reconcile.CopyFailureWritesNothing | includes/acf/classes/cwps-acf-civicrm-attachment.php:1126-1129 | a failed copy sends no file and writes no link record |
| Reconcile.CopySuccessLinks | includes/acf/classes/cwps-acf-civicrm-attachment.php:1126-1157 | a changed Attachment's copy is sent with its MIME type, and the link record pairs the WordPress file with the copy |
| Reconcile.MissingFileIsNotSent | includes/acf/classes/cwps-acf-civicrm-attachment.php:1042-1129 | an Attachment whose stored file is "" or missing is never sent and never linked |
| Reconcile.MissingUnlinkedFileIsQuiet | includes/acf/classes/cwps-acf-civicrm-attachment.php:1042-1076 | an Attachment with no stored file and no linked WordPress path reads as unchanged, so nothing happens, not even the retirement of a previous Attachment |
| Reconcile.SwitchRetiresPrevious | includes/acf/classes/cwps-acf-civicrm-attachment.php:1080-1121 | switching away from a linked Attachment deletes the previous CiviCRM Attachment found by base name and broadcasts, before the new file is sent |
| Reconcile.SwitchWithMissingPreviousRetiresNothing | includes/acf/classes/cwps-acf-civicrm-attachment.php:1090-1106 | switching away from a linked Attachment whose CiviCRM file is not in the File table issues only the lookup by base name: nothing is deleted or broadcast |
| Reconcile.NoSwitchCallsNothing | includes/acf/classes/cwps-acf-civicrm-attachment.php:1080-1121 | sending for the same Attachment as before, or into an empty field, sends no API request and no broadcast |
| Reconcile.SendTwiceIsQuiet | includes/acf/classes/cwps-acf-civicrm-attachment.php:1060-1138 | once a file is sent, sending the same value again does nothing, unless the stored path is "0" |
| Reconcile.UninitialisedSendIsQuiet | includes/acf/classes/cwps-acf-civicrm-attachment.php:401-454 | without CiviCRM nothing is sent, broadcast or linked |
| Reconcile.CopyForAcf | includes/acf/classes/cwps-acf-civicrm-attachment.php:469-502 | the duplicate exists iff CiviCRM is up |
| Reconcile.ParentOf | includes/acf/classes/cwps-acf-civicrm-attachment.php:1337-1341 | the sideload has a parent post iff the ACF id is numeric, and then it is that id |
| Reconcile.SyncNeeded | includes/acf/classes/cwps-acf-civicrm-attachment.php:1207-1242 | an empty field always syncs; a field whose Attachment has no CiviCRM path, or whose CiviCRM path already has this base name, syncs only when empty |
| Reconcile.AcfPlan | includes/acf/classes/cwps-acf-civicrm-attachment.php:1178-1379 | a link record is written iff an Attachment is created; it links the new file to the CiviCRM path, and the field receives the new id |
| Reconcile.SideloadPlan | includes/acf/classes/cwps-acf-civicrm-attachment.php:1284-1377 | one sideload request, for the duplicate under its base name and attached to a numeric post; a new Attachment is linked iff the sideload succeeds, to the CiviCRM path, and the field receives its id (0 on failure) |
| Reconcile.AfterAcf | includes/acf/classes/cwps-acf-civicrm-attachment.php:1337-1368 | receiving leaves CiviCRM's state and File table untouched |
| Reconcile.NoSyncKeepsExisting | includes/acf/classes/cwps-acf-civicrm-attachment.php:1207-1274 | without a needed sync the field keeps its Attachment, with no sideload and no write |
| Reconcile.EmptyFieldNeedsSync | includes/acf/classes/cwps-acf-civicrm-attachment.php:1211-1214 | an empty field always needs a sync |
| Reconcile.UnlinkedFieldKeepsExisting | includes/acf/classes/cwps-acf-civicrm-attachment.php:1215-1274 | a field whose Attachment has no link record keeps its Attachment |
| Reconcile.LinkedFileIsReused | includes/acf/classes/cwps-acf-civicrm-attachment.php:1278-1282 | an Attachment already linked to the CiviCRM file is reused with nothing sideloaded |
| Reconcile.SideloadRecordsLink | includes/acf/classes/cwps-acf-civicrm-attachment.php:1288-1377 | otherwise the duplicate is sideloaded under its base name, attached to a numeric post, and the new Attachment is linked to the CiviCRM path |
| Reconcile.SideloadThenReuse | includes/acf/classes/cwps-acf-civicrm-attachment.php:1278-1377 | a CiviCRM file is sideloaded at most once: receiving it again reuses a linked Attachment |
| Reconcile.SendThenReceiveKeepsAttachment | includes/acf/classes/cwps-acf-civicrm-attachment.php:1126-1274 | after a file is sent, receiving CiviCRM's name for it back leaves the field on the same Attachment with nothing sideloaded |
| Reconcile.PreDeletePlan | includes/acf/classes/cwps-acf-civicrm-attachment.php:1578-1682 | only an Entity Tag on a CiviCRM File has an effect; it sends File.get by id iff CiviCRM is up; an Attachment deleted is a linked one |
| Reconcile.AfterPreDelete | includes/acf/classes/cwps-acf-civicrm-attachment.php:1680 | the deleted Attachment has neither a link record nor a stored file afterwards, and CiviCRM's File table is untouched |
| Reconcile.PreDeleteRemovesLinked | includes/acf/classes/cwps-acf-civicrm-attachment.php:1611-1680 | untagging a File found by id deletes the first Attachment linked to its uri |
| Reconcile.PreDeleteMissingFileDeletesFirstLinked | includes/acf/classes/cwps-acf-civicrm-attachment.php:1611-1637 | a File not found gives an empty uri, so the first linked Attachment is deleted |
| Reconcile.PreDeleteLeavesNoLink | includes/acf/classes/cwps-acf-civicrm-attachment.php:1664-1680 | the deleted Attachment is left with no link record and no file, and every other record is untouched |
| AttachmentSync.Attachment.constructor | includes/acf/classes/cwps-acf-civicrm-attachment.php:111-121 | a new synchroniser waits for the loaded event; nothing else is registered and the snapshot and cache are empty |
| AttachmentSync.Attachment.RegisterHooks | includes/acf/classes/cwps-acf-civicrm-attachment.php:130-138 | registers the Mapper callbacks and waits for CiviCRM's configuration |
| AttachmentSync.Attachment.RegisterMapperHooks | includes/acf/classes/cwps-acf-civicrm-attachment.php:147-160 | afterwards the pre-save callback is hooked and the flag says so, however often it is called |
| AttachmentSync.Attachment.UnregisterMapperHooks | includes/acf/classes/cwps-acf-civicrm-attachment.php:169-182 | afterwards the pre-save callback is unhooked and the flag says so |
| AttachmentSync.Attachment.CivicrmConfig | includes/acf/classes/cwps-acf-civicrm-attachment.php:193-198 | CiviCRM's configuration registers the pre-delete listener exactly once |
| AttachmentSync.Attachment.RegisterCivicrmHooks | includes/acf/classes/cwps-acf-civicrm-attachment.php:207-224 | the flag keeps the dispatcher holding the pre-delete listener exactly once, however often it is called |
| AttachmentSync.Attachment.UnregisterCivicrmHooks | includes/acf/classes/cwps-acf-civicrm-attachment.php:233-249 | afterwards the dispatcher holds no pre-delete listener and the flag says so |
| AttachmentSync.Attachment.CivicrmFieldsGet | includes/acf/classes/cwps-acf-civicrm-attachment.php:731-789 | a cached filter is answered with no request; without CiviCRM the answer is empty and not cached; otherwise one getfields request, and its filtered answer is cached |
| AttachmentSync.Attachment.AcfFieldsPreSave | includes/acf/classes/cwps-acf-civicrm-attachment.php:808-864 | a revision leaves the snapshot unchanged; otherwise the snapshot becomes the batch's file fields in order |
| AttachmentSync.Attachment.AcfFieldPreSaveGet | includes/acf/classes/cwps-acf-civicrm-attachment.php:877-907 | the search loop with its break returns the first matching entry, or nothing |
| AttachmentSync.Attachment.MetadataSet | includes/acf/classes/cwps-acf-civicrm-attachment.php:1733-1739 | both paths of the Attachment are written and no other record changes |
| AttachmentSync.Attachment.MetadataDelete | includes/acf/classes/cwps-acf-civicrm-attachment.php:1750-1756 | the Attachment's record is removed and no other record changes |
| AttachmentSync.Attachment.MimicCivicrmCustom | includes/acf/classes/cwps-acf-civicrm-attachment.php:1391-1477 | the loop appends exactly the per-table broadcasts, in table order |
| AttachmentSync.Attachment.RetireLinked | includes/acf/classes/cwps-acf-civicrm-attachment.php:990-1010 | sends and broadcasts exactly what retiring the link calls for |
| AttachmentSync.Attachment.ClearField | includes/acf/classes/cwps-acf-civicrm-attachment.php:953-1015 | sends and broadcasts exactly what clearing the field calls for |
| AttachmentSync.Attachment.SendField | includes/acf/classes/cwps-acf-civicrm-attachment.php:1039-1157 | returns the value sent; requests, broadcasts and the link record are exactly those of sending the Attachment |
| AttachmentSync.Attachment.ValueGetForCivicrm | includes/acf/classes/cwps-acf-civicrm-attachment.php:934-1159 | returns the plan's value for the snapshot entry; requests, broadcasts and the link record are exactly the plan's |
| AttachmentSync.Attachment.ValueGetForAcf | includes/acf/classes/cwps-acf-civicrm-attachment.php:1178-1379 | returns the plan's Attachment id; the sideload request, new Attachment and link record are exactly the plan's |
| AttachmentSync.Attachment.SideloadDuplicate | includes/acf/classes/cwps-acf-civicrm-attachment.php:1284-1377 | records the one sideload request and changes the stored files and link records exactly as the sideload plan says |
| AttachmentSync.Attachment.EntityTagPreDelete | includes/acf/classes/cwps-acf-civicrm-attachment.php:1578-1682 | sends, deletes and removes exactly what the plan says |

## Left out

- `assets/templates/wordpress/taxonomies/term-edit.php` is not part of this model; it is
  an HTML template with no logic.
- The CiviCRM API, the Symfony dispatcher and `CRM_Core_Config` are left out because they
  are framework calls. API replies are parameters. An Attachment.delete issued by a
  transform does not change the File table the model holds.
- The file-system and media routines are left out: `copy`, `CRM_Utils_File::duplicate`,
  `CRM_Utils_File::makeFileName`, `filesize`, `wp_check_filetype`, `media_handle_sideload`,
  `get_post_mime_type`, `attachment_url_to_postid`. Each is replaced by the value it
  returns.
- WordPress reads are left out in the same way and given as values: `get_field`,
  `get_fields`, `get_field_object` and `get_post`. `acf_get_attachment(id)['ID']` is
  taken to be `id`.
- `mimic_civicrm_custom` reads the Entity Tables from a filter and the Custom Group from
  another class. Both are given as a `Broadcast` value; `custom_edited` is a log entry.
- `error_log`, backtraces and the commented-out debug blocks are left out: they have no
  effect on state.
- Hook priorities and argument counts are not modelled. Only whether each callback is
  registered, and how often, is kept.
- ACF values of other PHP types (`true`, objects, floats, numeric strings with a fraction)
  are not modelled. A value is nothing, an array with an id, an integer, or a non-numeric
  string.
- `AttachmentSync.Attachment.AcfFieldsPreSave`: a numeric id whose post does not exist is
  not modelled. The revision test is a parameter.
- `AttachmentSync.Attachment.CivicrmFieldsGet`: the cache is a field of the object. In
  PHP it is a function-level static, shared by every instance.
- `CrmApi.Delete`: `values` is an integer count. PHP's loose `== '1'` on other shapes of
  `values` is not modelled.
- `LinkMeta.QueryByFile`:
  - ascending Attachment id stands in for `WP_Query`'s ascending date order;
  - the match is a case-sensitive substring test, whereas `LIKE` under the usual
    case-insensitive collation ignores case. `WP_Meta_Query` escapes `%` and `_` in the
    name, so those are literal in both;
  - an empty name: `WP_Query` drops the value clause and matches every Attachment that
    has the key. Every Attachment in the model's record map has both keys, so the
    substring test, which the empty name passes for every record, gives the same set.
- `Paths.Basename`: a path ending in `/` has an empty base name here. PHP's `pathinfo`
  would give the last directory's name instead.
- `Reconcile.AcfPlan`: the sideload's outcome is a free answer even when CiviCRM is down
  and no duplicate was made, although `media_handle_sideload` on a missing temporary file
  would fail. A sideload that fails with a `WP_Error` is modelled as field value 0 with no
  link record. That matches the source: it hands the error object to `metadata_set`,
  WordPress's `update_metadata` writes nothing for a non-numeric object id, and
  `acf_get_attachment` of the error gives no `ID`, so the field receives an empty value.
- `Reconcile.PreDeletePlan`: `wp_delete_attachment` is modelled as removing the
  Attachment's file and link record. Its other clean-up (thumbnails, other meta, the
  post itself) is not modelled.
