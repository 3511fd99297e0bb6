/**
 * What the synchroniser does when a value crosses between an ACF File field and a CiviCRM
 * "File" Custom Field, and when CiviCRM deletes a tagged File. Each transform is given here
 * as a pure plan over the state it reads (`Site`) and the answers of the WordPress and
 * CiviCRM routines it calls, returning its result together with every effect it has: the
 * API requests issued, the mimicked `civicrm_custom` broadcasts, the link record written,
 * the Attachment sideloaded or deleted. The class in AttachmentSync performs these plans
 * on its own state; the properties of the transforms are lemmas about the plans.
 */
module Reconcile {
  import opened Wrappers
  import opened Paths
  import opened CrmApi
  import opened LinkMeta
  import opened Snapshot

  /**
   * The state the transforms read: whether CiviCRM is up, the link records of the
   * WordPress Attachments, the file each Attachment is stored in (`get_attached_file`)
   * and CiviCRM's File table in id order (what File.get searches).
   */
  datatype Site = Site(initialised: bool, postMeta: map<int, LinkRecord>, attachedFiles: map<int, string>, crmFiles: seq<CrmFile>)

  /** One link record written with `metadata_set`. */
  datatype MetaWrite = MetaWrite(attachmentId: int, rec: LinkRecord)

  /** The link records after an optional `metadata_set`. */
  function ApplyMeta(meta: map<int, LinkRecord>, w: Option<MetaWrite>): (r: map<int, LinkRecord>)
    ensures w.None? ==> r == meta
    ensures w.Some? ==> r == meta[w.value.attachmentId := w.value.rec]
  {
    match w
    case None => meta
    case Some(m) => meta[m.attachmentId := m.rec]
  }

  // ---------------------------------------------------------------------------------
  // File lookups inside the transforms

  /** The File rows whose `uri` is `uri`, in table order. */
  function RowsWithUri(rows: seq<CrmFile>, uri: string): (r: seq<CrmFile>)
    ensures |r| <= |rows|
  {
    if rows == [] then []
    else (if rows[0].uri == uri then [rows[0]] else []) + RowsWithUri(rows[1..], uri)
  }

  /**
   * The File rows whose `id` is `id`, in table order. File.get is asked by `id` by
   * `file_get_by_id` and by `uri` by `file_get_by_name`, the two fields of a different
   * type, hence one filter for each.
   */
  function RowsWithId(rows: seq<CrmFile>, id: int): (r: seq<CrmFile>)
    ensures |r| <= |rows|
  {
    if rows == [] then []
    else (if rows[0].id == id then [rows[0]] else []) + RowsWithId(rows[1..], id)
  }

  /** File.get with a `uri`, answered from the File table. */
  function FileReplyByUri(rows: seq<CrmFile>, uri: string): (r: Envelope<CrmFile>)
    ensures r.isError == 0
  {
    Envelope(0, RowsWithUri(rows, uri))
  }

  /** File.get with an `id`, answered from the File table. */
  function FileReplyById(rows: seq<CrmFile>, id: int): (r: Envelope<CrmFile>)
    ensures r.isError == 0
  {
    Envelope(0, RowsWithId(rows, id))
  }

  // ---------------------------------------------------------------------------------
  // The mimicked `civicrm_custom` broadcast

  /** The ACF Field arguments a transform receives: selector, ACF "Post ID", CiviCRM entity and Custom Field. */
  datatype FieldArgs = FieldArgs(selector: string, postId: PostId, entityId: int, customFieldId: int)

  /**
   * The answers `mimic_civicrm_custom` collects from the rest of the plugin: the Entity
   * Tables the field's Field Group maps to, and the Custom Group of the Custom Field.
   */
  datatype Broadcast = Broadcast(tables: seq<string>, customGroupId: int)

  /** One changed Custom Field as `civicrm_custom` reports it. */
  datatype CustomFieldChange = CustomFieldChange(
    entityTable: string, entityId: int, value: string, fieldType: string,
    customFieldId: int, customGroupId: int, isMultiple: int, serialize: int, fileId: string)

  /** One `custom_edited` broadcast: operation, Custom Group, entity and changed fields. */
  datatype CustomEdit = CustomEdit(op: string, groupId: int, entityId: int, fields: seq<CustomFieldChange>)

  /** The broadcast for one Entity Table: a single File Custom Field whose value is now empty. */
  function ClearedEdit(table: string, b: Broadcast, args: FieldArgs): (r: CustomEdit)
    ensures r.op == "edit" && |r.fields| == 1 && r.fields[0].value == ""
  {
    CustomEdit("edit", b.customGroupId, args.entityId,
      [CustomFieldChange(table, args.entityId, "", "File", args.customFieldId, b.customGroupId, 0, 0, "")])
  }

  /** `mimic_civicrm_custom`: one cleared-File broadcast per Entity Table, in table order. */
  function EditsFor(tables: seq<string>, b: Broadcast, args: FieldArgs): (r: seq<CustomEdit>)
    ensures |r| == |tables|
  {
    if tables == [] then []
    else [ClearedEdit(tables[0], b, args)] + EditsFor(tables[1..], b, args)
  }

  /**
   * One broadcast per Entity Table, in table order, each an "edit" of the entity carrying
   * one File Custom Field whose value is now empty.
   */
  lemma {:induction false} EditsForShape(tables: seq<string>, b: Broadcast, args: FieldArgs)
    ensures |EditsFor(tables, b, args)| == |tables|
    ensures forall k :: 0 <= k < |tables| ==> EditsFor(tables, b, args)[k] == ClearedEdit(tables[k], b, args)
    ensures forall k :: 0 <= k < |tables| ==>
              ClearedEdit(tables[k], b, args).op == "edit" &&
              ClearedEdit(tables[k], b, args).fields == [CustomFieldChange(tables[k], args.entityId, "", "File", args.customFieldId, b.customGroupId, 0, 0, "")]
  {
    if tables != [] {
      EditsForShape(tables[1..], b, args);
      assert forall k :: 1 <= k < |tables| ==> tables[k] == tables[1..][k - 1];
    }
  }

  /** Broadcasting for a list of tables is broadcasting for its parts in turn. */
  lemma {:induction false} EditsForAppend(a: seq<string>, c: seq<string>, b: Broadcast, args: FieldArgs)
    ensures EditsFor(a + c, b, args) == EditsFor(a, b, args) + EditsFor(c, b, args)
  {
    if a == [] {
      assert a + c == c;
    } else {
      assert (a + c)[1..] == a[1..] + c;
      EditsForAppend(a[1..], c, b, args);
    }
  }

  // ---------------------------------------------------------------------------------
  // ACF to CiviCRM: `value_get_for_civicrm`

  /**
   * An ACF File value in any of its return formats: nothing, an array carrying the
   * Attachment id, a number (or numeric string), or a non-numeric string (the URL).
   */
  datatype FieldValue = Nothing | Structured(id: int) | Numeric(n: int) | Url(url: string)

  /** PHP's `empty()` on an ACF File value. A non-empty array is never empty, whatever its id. */
  predicate IsEmptyValue(v: FieldValue)
    ensures IsEmptyValue(v) <==> v == Nothing || v == Numeric(0) || v == Url("")
  {
    match v
    case Nothing => true
    case Structured(_) => false
    case Numeric(n) => n == 0
    case Url(u) => u == ""
  }

  /** The Attachment id a value names; a URL is looked up with `attachment_url_to_postid` (`urlId`). */
  function ResolveId(v: FieldValue, urlId: int): (r: int)
    ensures !v.Url? ==> (r == 0 <==> IsEmptyValue(v) || v == Structured(0))
    ensures v.Url? ==> r == urlId
  {
    match v
    case Nothing => 0
    case Structured(id) => id
    case Numeric(n) => n
    case Url(_) => urlId
  }

  /** What `value_get_for_civicrm` hands to CiviCRM: nothing, or a file to attach. */
  datatype CivicrmValue = NoFile | FileDescriptor(name: string, mimeType: string)

  /** The answers of the WordPress and CiviCRM routines called while sending a value. */
  datatype CopyAnswers = CopyAnswers(urlId: int, newName: string, copyOk: bool, mimeType: string)

  /** The result and effects of `value_get_for_civicrm`. */
  datatype CivicrmOutcome = CivicrmOutcome(value: CivicrmValue, calls: seq<ApiCall>, edits: seq<CustomEdit>, metaWrite: Option<MetaWrite>)

  /** The outcome with no result and no effect at all. */
  const QUIET := CivicrmOutcome(NoFile, [], [], None)

  /**
   * `file_copy_for_civicrm`: the WordPress file copied under CiviCRM's name for it
   * (`newName`, what `makeFileName` makes of the base name). Fails without CiviCRM,
   * for the empty path (PHP's `copy` refuses an empty file name), or when the copy fails.
   */
  function CopyForCivicrm(initialised: bool, file: string, newName: string, copyOk: bool): (r: Option<string>)
    ensures r.Some? <==> initialised && file != "" && copyOk
    ensures r.Some? ==> r.value == ReplaceAll(file, Basename(file), newName)
  {
    if !initialised then None
    else if file == "" then None
    else if copyOk then Some(ReplaceAll(file, Basename(file), newName))
    else None
  }

  /** When the base name does not recur in the directory part, the copy sits beside the original. */
  lemma CopyStaysInDirectory(dir: string, name: string, newName: string)
    requires name != [] && '/' !in name
    requires dir == [] || dir[|dir| - 1] == '/'
    requires !Occurs(name, dir)
    ensures CopyForCivicrm(true, dir + name, newName, true) == Some(dir + newName)
  {
    BasenameOfJoin(dir, name);
    ReplaceBasename(dir, name, newName);
  }

  /**
   * Retiring the CiviCRM Attachment behind a link: look the File up by the base name of
   * the stored CiviCRM path; if it is there, delete it (the reply is not read) and mimic
   * the `civicrm_custom` broadcast.
   */
  function Retire(s: Site, civicrmFile: string, b: Broadcast, args: FieldArgs): (r: (seq<ApiCall>, seq<CustomEdit>))
    ensures !s.initialised ==> r == ([], [])
  {
    var name := Basename(civicrmFile);
    var found := FileGetByName(s.initialised, name, FileReplyByUri(s.crmFiles, name));
    match found.value
    case None => (found.calls, [])
    case Some(f) => (found.calls + [AttachmentDelete(f.id)], EditsFor(b.tables, b, args))
  }

  /** With CiviCRM up, retiring asks for the File by name and deletes the last row found, then broadcasts. */
  lemma RetireEffects(s: Site, civicrmFile: string, b: Broadcast, args: FieldArgs)
    requires s.initialised
    ensures var name := Basename(civicrmFile);
            var rows := RowsWithUri(s.crmFiles, name);
            (rows == [] ==> Retire(s, civicrmFile, b, args) == ([FileLookupByUri(name)], [])) &&
            (rows != [] ==> Retire(s, civicrmFile, b, args) == ([FileLookupByUri(name), AttachmentDelete(Last(rows).id)], EditsFor(b.tables, b, args)))
  {
    var name := Basename(civicrmFile);
    var rows := RowsWithUri(s.crmFiles, name);
    var found := FileGetByName(s.initialised, name, Envelope(0, rows));
    if rows == [] {
      assert found == Answer(None, [FileLookupByUri(name)]);
    } else {
      assert found == Answer(Some(Last(rows)), [FileLookupByUri(name)]);
      assert found.calls + [AttachmentDelete(Last(rows).id)] == [FileLookupByUri(name), AttachmentDelete(Last(rows).id)];
    }
  }

  /** The Attachment previously linked to the field has a CiviCRM file recorded. */
  predicate PriorLinked(s: Site, priorId: int)
  {
    !IsEmptyText(MetadataGet(s.postMeta, priorId).civicrmFile)
  }

  /**
   * `get_attached_file($id, true)`: the stored file of an Attachment, read from its
   * `_wp_attached_file` meta, so "" for an Attachment that has none.
   */
  function AttachedFile(s: Site, id: int): (r: string)
    ensures id in s.attachedFiles ==> r == s.attachedFiles[id]
    ensures id !in s.attachedFiles ==> r == ""
  {
    if id in s.attachedFiles then s.attachedFiles[id] else ""
  }

  /**
   * The Attachment's file is the one already synchronised: the stored WordPress path of
   * its link record, read through `empty()`, equals its current file.
   */
  predicate Unchanged(s: Site, id: int)
    ensures id !in s.attachedFiles ==> (Unchanged(s, id) <==> IsEmptyText(MetadataGet(s.postMeta, id).wordpressFile))
    ensures AttachedFile(s, id) == "0" ==> !Unchanged(s, id)
    ensures id !in s.postMeta ==> (Unchanged(s, id) <==> AttachedFile(s, id) == "")
  {
    MetadataGet(s.postMeta, id).wordpressFile == AttachedFile(s, id)
  }

  /** An empty value: the previously linked CiviCRM Attachment, if any, is retired. */
  function ClearPlan(s: Site, priorId: int, b: Broadcast, args: FieldArgs): (r: CivicrmOutcome)
    ensures r.value == NoFile && r.metaWrite == None
    ensures priorId == 0 || !PriorLinked(s, priorId) ==> r == QUIET
  {
    if priorId == 0 then QUIET
    else if !PriorLinked(s, priorId) then QUIET
    else
      var retired := Retire(s, MetadataGet(s.postMeta, priorId).civicrmFile, b, args);
      CivicrmOutcome(NoFile, retired.0, retired.1, None)
  }

  /** Before a switch is sent, the previously linked CiviCRM Attachment is retired. */
  function SwitchRetire(s: Site, priorId: int, id: int, b: Broadcast, args: FieldArgs): (r: (seq<ApiCall>, seq<CustomEdit>))
    ensures priorId == 0 || priorId == id || !PriorLinked(s, priorId) ==> r == ([], [])
  {
    if priorId != 0 && priorId != id && PriorLinked(s, priorId)
    then Retire(s, MetadataGet(s.postMeta, priorId).civicrmFile, b, args)
    else ([], [])
  }

  /** A value naming Attachment `id`: copied and linked unless its file is the one already synchronised. */
  function SendPlan(s: Site, id: int, priorId: int, b: Broadcast, args: FieldArgs, ans: CopyAnswers): (r: CivicrmOutcome)
    ensures Unchanged(s, id) ==> r == QUIET
    ensures r.value.FileDescriptor? <==> r.metaWrite.Some?
    ensures r.metaWrite.Some? ==> r.metaWrite.value.attachmentId == id && id in s.attachedFiles && s.attachedFiles[id] != "" &&
                                  r.metaWrite.value.rec == LinkRecord(s.attachedFiles[id], r.value.name)
  {
    if Unchanged(s, id) then QUIET
    else
      var file := AttachedFile(s, id);
      var retired := SwitchRetire(s, priorId, id, b, args);
      match CopyForCivicrm(s.initialised, file, ans.newName, ans.copyOk)
      case None => CivicrmOutcome(NoFile, retired.0, retired.1, None)
      case Some(newFile) =>
        CivicrmOutcome(FileDescriptor(newFile, ans.mimeType), retired.0, retired.1,
                       Some(MetaWrite(id, LinkRecord(file, newFile))))
  }

  /**
   * `value_get_for_civicrm`: `prior` is the pre-save snapshot entry of the field.
   * An empty value clears: it retires the previously linked CiviCRM Attachment, if any.
   * Otherwise the Attachment named by the value is sent, unless its file is the one
   * already synchronised; a switch away from a linked Attachment retires that one first.
   */
  function CivicrmPlan(s: Site, value: FieldValue, prior: Option<FileField>, b: Broadcast, args: FieldArgs, ans: CopyAnswers): (r: CivicrmOutcome)
    ensures !s.initialised ==> r == QUIET
    ensures r.value.FileDescriptor? <==> r.metaWrite.Some?
    ensures r.metaWrite.Some? ==> r.metaWrite.value.attachmentId == ResolveId(value, ans.urlId) &&
                                  r.metaWrite.value.rec.civicrmFile == r.value.name
  {
    var priorId := PriorAttachment(prior);
    if IsEmptyValue(value) then ClearPlan(s, priorId, b, args)
    else
      var id := ResolveId(value, ans.urlId);
      if id == 0 then QUIET
      else SendPlan(s, id, priorId, b, args, ans)
  }

  /** The site after a `value_get_for_civicrm`: only its link record may change. */
  function AfterCivicrm(s: Site, o: CivicrmOutcome): (r: Site)
    ensures r.initialised == s.initialised && r.attachedFiles == s.attachedFiles && r.crmFiles == s.crmFiles
  {
    s.(postMeta := ApplyMeta(s.postMeta, o.metaWrite))
  }

  /** Clearing a field that held nothing before does nothing. */
  lemma ClearWithoutPriorIsQuiet(s: Site, value: FieldValue, prior: Option<FileField>, b: Broadcast, args: FieldArgs, ans: CopyAnswers)
    requires IsEmptyValue(value) && PriorAttachment(prior) == 0
    ensures CivicrmPlan(s, value, prior, b, args, ans) == QUIET
  {
  }

  /** Clearing a field whose previous Attachment was never linked to CiviCRM does nothing. */
  lemma ClearUnlinkedPriorIsQuiet(s: Site, value: FieldValue, prior: Option<FileField>, b: Broadcast, args: FieldArgs, ans: CopyAnswers)
    requires IsEmptyValue(value) && !PriorLinked(s, PriorAttachment(prior))
    ensures CivicrmPlan(s, value, prior, b, args, ans) == QUIET
  {
  }

  /**
   * Clearing a field whose previous Attachment is linked looks the CiviCRM File up by
   * name, deletes the last row found and broadcasts the cleared field once per table;
   * nothing is sent to CiviCRM and no link record is written.
   */
  lemma ClearRetiresPrevious(s: Site, value: FieldValue, prior: Option<FileField>, b: Broadcast, args: FieldArgs, ans: CopyAnswers)
    requires s.initialised && IsEmptyValue(value)
    requires PriorAttachment(prior) != 0 && PriorLinked(s, PriorAttachment(prior))
    ensures var name := Basename(MetadataGet(s.postMeta, PriorAttachment(prior)).civicrmFile);
            var rows := RowsWithUri(s.crmFiles, name);
            var r := CivicrmPlan(s, value, prior, b, args, ans);
            r.value == NoFile && r.metaWrite == None &&
            (rows == [] ==> r.calls == [FileLookupByUri(name)] && r.edits == []) &&
            (rows != [] ==> r.calls == [FileLookupByUri(name), AttachmentDelete(Last(rows).id)] && r.edits == EditsFor(b.tables, b, args))
  {
    RetireEffects(s, MetadataGet(s.postMeta, PriorAttachment(prior)).civicrmFile, b, args);
  }

  /** A value that names no Attachment does nothing. */
  lemma UnresolvedValueIsQuiet(s: Site, value: FieldValue, prior: Option<FileField>, b: Broadcast, args: FieldArgs, ans: CopyAnswers)
    requires !IsEmptyValue(value) && ResolveId(value, ans.urlId) == 0
    ensures CivicrmPlan(s, value, prior, b, args, ans) == QUIET
  {
  }

  /** An Attachment whose file is the one already synchronised is not sent again. */
  lemma UnchangedFileIsQuiet(s: Site, value: FieldValue, prior: Option<FileField>, b: Broadcast, args: FieldArgs, ans: CopyAnswers)
    requires !IsEmptyValue(value) && ResolveId(value, ans.urlId) != 0
    requires Unchanged(s, ResolveId(value, ans.urlId))
    ensures CivicrmPlan(s, value, prior, b, args, ans) == QUIET
  {
  }

  /** When the copy fails nothing is sent to CiviCRM and no link record is written. */
  lemma CopyFailureWritesNothing(s: Site, value: FieldValue, prior: Option<FileField>, b: Broadcast, args: FieldArgs, ans: CopyAnswers)
    requires !ans.copyOk
    ensures CivicrmPlan(s, value, prior, b, args, ans).value == NoFile
    ensures CivicrmPlan(s, value, prior, b, args, ans).metaWrite == None
  {
  }

  /**
   * A changed Attachment is copied for CiviCRM: the copy is what CiviCRM receives, and the
   * link record pairs the WordPress file with the copy.
   */
  lemma CopySuccessLinks(s: Site, value: FieldValue, prior: Option<FileField>, b: Broadcast, args: FieldArgs, ans: CopyAnswers)
    requires s.initialised && ans.copyOk && !IsEmptyValue(value)
    requires var id := ResolveId(value, ans.urlId); id != 0 && id in s.attachedFiles && s.attachedFiles[id] != "" && !Unchanged(s, id)
    ensures var id := ResolveId(value, ans.urlId);
            var f := s.attachedFiles[id];
            var newFile := ReplaceAll(f, Basename(f), ans.newName);
            var r := CivicrmPlan(s, value, prior, b, args, ans);
            r.value == FileDescriptor(newFile, ans.mimeType) &&
            r.metaWrite == Some(MetaWrite(id, LinkRecord(f, newFile)))
  {
  }

  /** An Attachment whose stored file is "" (or missing, which reads as "") is never sent, and nothing is linked. */
  lemma MissingFileIsNotSent(s: Site, value: FieldValue, prior: Option<FileField>, b: Broadcast, args: FieldArgs, ans: CopyAnswers)
    requires AttachedFile(s, ResolveId(value, ans.urlId)) == ""
    ensures CivicrmPlan(s, value, prior, b, args, ans).value == NoFile
    ensures CivicrmPlan(s, value, prior, b, args, ans).metaWrite == None
  {
  }

  /**
   * An Attachment with no stored file and no linked WordPress path reads as unchanged
   * ("" against ""), so nothing happens at all, even on a switch away from a linked
   * Attachment: the previous CiviCRM Attachment is kept.
   */
  lemma MissingUnlinkedFileIsQuiet(s: Site, value: FieldValue, prior: Option<FileField>, b: Broadcast, args: FieldArgs, ans: CopyAnswers)
    requires !IsEmptyValue(value)
    requires var id := ResolveId(value, ans.urlId); id !in s.attachedFiles && IsEmptyText(MetadataGet(s.postMeta, id).wordpressFile)
    ensures CivicrmPlan(s, value, prior, b, args, ans) == QUIET
  {
  }

  /**
   * Switching the field from a linked Attachment to another one deletes the previous
   * CiviCRM Attachment (found by name) and broadcasts the cleared field before the new
   * file is sent.
   */
  lemma SwitchRetiresPrevious(s: Site, value: FieldValue, prior: Option<FileField>, b: Broadcast, args: FieldArgs, ans: CopyAnswers)
    requires s.initialised && !IsEmptyValue(value)
    requires var id := ResolveId(value, ans.urlId); id != 0 && !Unchanged(s, id)
    requires var p := PriorAttachment(prior); p != 0 && p != ResolveId(value, ans.urlId) && PriorLinked(s, p)
    requires RowsWithUri(s.crmFiles, Basename(MetadataGet(s.postMeta, PriorAttachment(prior)).civicrmFile)) != []
    ensures var name := Basename(MetadataGet(s.postMeta, PriorAttachment(prior)).civicrmFile);
            var r := CivicrmPlan(s, value, prior, b, args, ans);
            r.calls == [FileLookupByUri(name), AttachmentDelete(Last(RowsWithUri(s.crmFiles, name)).id)] &&
            r.edits == EditsFor(b.tables, b, args)
  {
    var id := ResolveId(value, ans.urlId);
    var priorId := PriorAttachment(prior);
    var r := CivicrmPlan(s, value, prior, b, args, ans);
    assert r == SendPlan(s, id, priorId, b, args, ans);
    var retired := SwitchRetire(s, priorId, id, b, args);
    assert retired == Retire(s, MetadataGet(s.postMeta, priorId).civicrmFile, b, args);
    RetireEffects(s, MetadataGet(s.postMeta, priorId).civicrmFile, b, args);
    assert r.calls == retired.0 && r.edits == retired.1;
  }

  /**
   * Switching away from a linked Attachment whose CiviCRM file is no longer in the File
   * table only looks it up: nothing is deleted and nothing is broadcast before the send.
   */
  lemma SwitchWithMissingPreviousRetiresNothing(s: Site, value: FieldValue, prior: Option<FileField>, b: Broadcast, args: FieldArgs, ans: CopyAnswers)
    requires s.initialised && !IsEmptyValue(value)
    requires var id := ResolveId(value, ans.urlId); id != 0 && !Unchanged(s, id)
    requires var p := PriorAttachment(prior); p != 0 && p != ResolveId(value, ans.urlId) && PriorLinked(s, p)
    requires RowsWithUri(s.crmFiles, Basename(MetadataGet(s.postMeta, PriorAttachment(prior)).civicrmFile)) == []
    ensures var name := Basename(MetadataGet(s.postMeta, PriorAttachment(prior)).civicrmFile);
            var r := CivicrmPlan(s, value, prior, b, args, ans);
            r.calls == [FileLookupByUri(name)] && r.edits == []
  {
    var id := ResolveId(value, ans.urlId);
    var priorId := PriorAttachment(prior);
    var r := CivicrmPlan(s, value, prior, b, args, ans);
    assert r == SendPlan(s, id, priorId, b, args, ans);
    var retired := SwitchRetire(s, priorId, id, b, args);
    assert retired == Retire(s, MetadataGet(s.postMeta, priorId).civicrmFile, b, args);
    RetireEffects(s, MetadataGet(s.postMeta, priorId).civicrmFile, b, args);
    assert r.calls == retired.0 && r.edits == retired.1;
  }

  /** Sending a value for the Attachment the field already held, or held nothing, calls no API. */
  lemma NoSwitchCallsNothing(s: Site, value: FieldValue, prior: Option<FileField>, b: Broadcast, args: FieldArgs, ans: CopyAnswers)
    requires !IsEmptyValue(value)
    requires PriorAttachment(prior) == 0 || PriorAttachment(prior) == ResolveId(value, ans.urlId)
    ensures CivicrmPlan(s, value, prior, b, args, ans).calls == []
    ensures CivicrmPlan(s, value, prior, b, args, ans).edits == []
  {
  }

  /**
   * Sending is idempotent: once an Attachment's file has been sent, sending the same value
   * again does nothing, whatever the snapshot says. A stored file named "0" is the
   * exception, since `empty()` reads it back as no file.
   */
  lemma {:induction false} SendTwiceIsQuiet(s: Site, value: FieldValue, prior: Option<FileField>, prior2: Option<FileField>, b: Broadcast, args: FieldArgs, ans: CopyAnswers)
    requires CivicrmPlan(s, value, prior, b, args, ans).metaWrite.Some?
    requires var id := ResolveId(value, ans.urlId); id in s.attachedFiles && s.attachedFiles[id] != "0"
    ensures var s2 := AfterCivicrm(s, CivicrmPlan(s, value, prior, b, args, ans));
            CivicrmPlan(s2, value, prior2, b, args, ans) == QUIET
  {
    var id := ResolveId(value, ans.urlId);
    var r := CivicrmPlan(s, value, prior, b, args, ans);
    assert r.metaWrite == Some(MetaWrite(id, LinkRecord(s.attachedFiles[id], r.value.name)));
    var s2 := AfterCivicrm(s, r);
    assert MetadataGet(s2.postMeta, id).wordpressFile == s2.attachedFiles[id];
    assert Unchanged(s2, id);
  }

  /** Without CiviCRM, sending issues nothing, broadcasts nothing and links nothing. */
  lemma UninitialisedSendIsQuiet(s: Site, value: FieldValue, prior: Option<FileField>, b: Broadcast, args: FieldArgs, ans: CopyAnswers)
    requires !s.initialised
    ensures CivicrmPlan(s, value, prior, b, args, ans) == QUIET
  {
  }

  // ---------------------------------------------------------------------------------
  // CiviCRM to ACF: `value_get_for_acf`

  /** What `media_handle_sideload` returns when it succeeds: the new Attachment and its stored file. */
  datatype Sideloaded = Sideloaded(attachmentId: int, file: string)

  /** The `$files` entry and parent post handed to `media_handle_sideload`. */
  datatype SideloadRequest = SideloadRequest(name: string, fileType: string, tmpName: Option<string>, error: int, size: int, parent: Option<int>)

  /**
   * The answers of the WordPress and CiviCRM routines called while receiving a value:
   * CiviCRM's upload directory, the path `duplicate` copies to, the file type and size
   * of the copy, and the sideload's outcome (`None` for an error).
   */
  datatype SideloadAnswers = SideloadAnswers(uploadDir: string, duplicate: string, fileType: string, size: int, sideload: Option<Sideloaded>)

  /** The result and effects of `value_get_for_acf`. */
  datatype AcfOutcome = AcfOutcome(value: int, request: Option<SideloadRequest>, metaWrite: Option<MetaWrite>, created: Option<Sideloaded>)

  /** `file_copy_for_acf`: the duplicate CiviCRM makes, provided CiviCRM is up. */
  function CopyForAcf(initialised: bool, duplicate: string): (r: Option<string>)
    ensures r.Some? <==> initialised
    ensures r.Some? ==> r.value == duplicate
  {
    if initialised then Some(duplicate) else None
  }

  /**
   * A CiviCRM value must be synced into the field when the field is empty, or when the
   * CiviCRM file linked to its Attachment has a non-empty base name other than the value.
   */
  predicate SyncNeeded(existing: int, meta: LinkRecord, value: string)
    ensures existing == 0 ==> SyncNeeded(existing, meta, value)
    ensures IsEmptyText(meta.civicrmFile) ==> (SyncNeeded(existing, meta, value) <==> existing == 0)
    ensures Basename(meta.civicrmFile) == value ==> (SyncNeeded(existing, meta, value) <==> existing == 0)
  {
    existing == 0 ||
    (!IsEmptyText(meta.civicrmFile) && !IsEmptyText(Basename(meta.civicrmFile)) && Basename(meta.civicrmFile) != value)
  }

  /** The sideload's parent post: the ACF "Post ID" when it is numeric, none otherwise. */
  function ParentOf(postId: PostId): (r: Option<int>)
    ensures r.Some? <==> postId.NumericId?
    ensures r.Some? ==> r.value == postId.n
  {
    match postId
    case NumericId(n) => Some(n)
    case NamedId(_) => None
  }

  /**
   * `value_get_for_acf`: `value` is the CiviCRM file name, `existing` the field's raw
   * Attachment id (0 when empty). Without a needed sync the field keeps its Attachment;
   * otherwise an Attachment already linked to that CiviCRM file is reused; otherwise a
   * duplicate of the CiviCRM file is sideloaded and linked.
   */
  function AcfPlan(s: Site, value: string, existing: int, postId: PostId, ans: SideloadAnswers): (r: AcfOutcome)
    ensures r.metaWrite.Some? <==> r.created.Some?
    ensures r.created.Some? ==> r.request.Some? && r.value == r.created.value.attachmentId
    ensures r.metaWrite.Some? ==> r.metaWrite.value == MetaWrite(r.created.value.attachmentId, LinkRecord(r.created.value.file, ans.uploadDir + value))
  {
    if !SyncNeeded(existing, MetadataGet(s.postMeta, existing), value) then AcfOutcome(existing, None, None, None)
    else
      var possible := QueryByFile(s.postMeta, value, "civicrm");
      if possible.Some? && possible.value != 0 then AcfOutcome(possible.value, None, None, None)
      else SideloadPlan(s, value, postId, ans)
  }

  /**
   * The last resort of `value_get_for_acf`: duplicate the CiviCRM file, sideload the
   * duplicate under its base name and link the new Attachment to the CiviCRM path.
   */
  function SideloadPlan(s: Site, value: string, postId: PostId, ans: SideloadAnswers): (r: AcfOutcome)
    ensures r.request.Some? && r.request.value.parent == ParentOf(postId)
    ensures r.request.value.tmpName == CopyForAcf(s.initialised, ans.duplicate)
    ensures r.created == ans.sideload && (r.created.None? ==> r.value == 0)
    ensures r.metaWrite.Some? <==> r.created.Some?
    ensures r.created.Some? ==> r.value == r.created.value.attachmentId
    ensures r.created.Some? ==> r.metaWrite.value == MetaWrite(r.created.value.attachmentId, LinkRecord(r.created.value.file, ans.uploadDir + value))
  {
    var tmp := CopyForAcf(s.initialised, ans.duplicate);
    var tmpPath := if tmp.Some? then tmp.value else "";
    var request := SideloadRequest(Basename(tmpPath), ans.fileType, tmp, 0, ans.size, ParentOf(postId));
    match ans.sideload
    case None => AcfOutcome(0, Some(request), None, None)
    case Some(n) =>
      AcfOutcome(n.attachmentId, Some(request), Some(MetaWrite(n.attachmentId, LinkRecord(n.file, ans.uploadDir + value))), Some(n))
  }

  /** The site after a `value_get_for_acf`: the new Attachment, if any, and its link record. */
  function AfterAcf(s: Site, o: AcfOutcome): (r: Site)
    ensures r.initialised == s.initialised && r.crmFiles == s.crmFiles
  {
    match o.created
    case None => s.(postMeta := ApplyMeta(s.postMeta, o.metaWrite))
    case Some(n) => s.(postMeta := ApplyMeta(s.postMeta, o.metaWrite), attachedFiles := s.attachedFiles[n.attachmentId := n.file])
  }

  /** Without a needed sync the field keeps its Attachment and nothing happens. */
  lemma NoSyncKeepsExisting(s: Site, value: string, existing: int, postId: PostId, ans: SideloadAnswers)
    requires !SyncNeeded(existing, MetadataGet(s.postMeta, existing), value)
    ensures AcfPlan(s, value, existing, postId, ans) == AcfOutcome(existing, None, None, None)
  {
  }

  /** An empty field always needs a sync. */
  lemma EmptyFieldNeedsSync(meta: LinkRecord, value: string)
    ensures SyncNeeded(0, meta, value)
  {
  }

  /** A field whose Attachment was never linked to CiviCRM keeps its Attachment. */
  lemma UnlinkedFieldKeepsExisting(s: Site, value: string, existing: int, postId: PostId, ans: SideloadAnswers)
    requires existing != 0 && existing !in s.postMeta
    ensures AcfPlan(s, value, existing, postId, ans) == AcfOutcome(existing, None, None, None)
  {
  }

  /** When an Attachment is already linked to the CiviCRM file it is reused, with nothing sideloaded. */
  lemma LinkedFileIsReused(s: Site, value: string, existing: int, postId: PostId, ans: SideloadAnswers)
    requires SyncNeeded(existing, MetadataGet(s.postMeta, existing), value)
    requires QueryByFile(s.postMeta, value, "civicrm").Some? && QueryByFile(s.postMeta, value, "civicrm").value != 0
    ensures var r := AcfPlan(s, value, existing, postId, ans);
            r == AcfOutcome(r.value, None, None, None) &&
            r.value in s.postMeta && Occurs(value, s.postMeta[r.value].civicrmFile)
  {
  }

  /**
   * When no Attachment is linked to the CiviCRM file, its duplicate is sideloaded under the
   * duplicate's base name, attached to the post when the ACF id is numeric, and the new
   * Attachment is linked to the CiviCRM file.
   */
  lemma SideloadRecordsLink(s: Site, value: string, existing: int, postId: PostId, ans: SideloadAnswers)
    requires s.initialised
    requires SyncNeeded(existing, MetadataGet(s.postMeta, existing), value)
    requires QueryByFile(s.postMeta, value, "civicrm").None?
    ensures var r := AcfPlan(s, value, existing, postId, ans);
            r.request == Some(SideloadRequest(Basename(ans.duplicate), ans.fileType, Some(ans.duplicate), 0, ans.size, ParentOf(postId))) &&
            (ans.sideload.None? ==> r.value == 0 && r.metaWrite == None) &&
            (ans.sideload.Some? ==> r.value == ans.sideload.value.attachmentId &&
                                    r.metaWrite == Some(MetaWrite(r.value, LinkRecord(ans.sideload.value.file, ans.uploadDir + value))))
  {
  }

  /**
   * A CiviCRM file is sideloaded at most once: once its duplicate is linked, receiving the
   * same file name again (even into an empty field) reuses a linked Attachment instead.
   * WordPress Attachment ids are positive.
   */
  lemma {:induction false} SideloadThenReuse(s: Site, value: string, existing: int, postId: PostId, ans: SideloadAnswers, existing2: int, postId2: PostId, ans2: SideloadAnswers)
    requires forall id :: id in s.postMeta ==> id > 0
    requires var r := AcfPlan(s, value, existing, postId, ans); r.created.Some? && r.value > 0
    requires SyncNeeded(existing2, MetadataGet(AfterAcf(s, AcfPlan(s, value, existing, postId, ans)).postMeta, existing2), value)
    ensures var s2 := AfterAcf(s, AcfPlan(s, value, existing, postId, ans));
            var r2 := AcfPlan(s2, value, existing2, postId2, ans2);
            r2.request == None && r2.created == None && r2.value > 0
  {
    var r := AcfPlan(s, value, existing, postId, ans);
    var s2 := AfterAcf(s, r);
    var n := r.created.value;
    assert s2.postMeta == s.postMeta[n.attachmentId := LinkRecord(n.file, ans.uploadDir + value)];
    LinkedUploadIsFound(s.postMeta, value, ans.uploadDir, n.attachmentId, n.file);
    LinkedFileIsReused(s2, value, existing2, postId2, ans2);
  }

  /** A link record to `uploadDir + value`, under a positive id, makes the lookup of `value` hit a positive id. */
  lemma LinkedUploadIsFound(meta: map<int, LinkRecord>, value: string, uploadDir: string, n: int, file: string)
    requires forall id :: id in meta ==> id > 0
    requires n > 0
    ensures var p := QueryByFile(meta[n := LinkRecord(file, uploadDir + value)], value, "civicrm");
            p.Some? && p.value > 0
  {
    var meta2 := meta[n := LinkRecord(file, uploadDir + value)];
    assert OccursAt(value, uploadDir + value, |uploadDir|);
    assert Occurs(value, KeyValue(meta2[n], "civicrm"));
  }

  /**
   * Sending a file to CiviCRM and receiving CiviCRM's name for it back leaves the field
   * on the same Attachment with nothing sideloaded: the round trip converges.
   */
  lemma {:induction false} SendThenReceiveKeepsAttachment(s: Site, value: FieldValue, prior: Option<FileField>, b: Broadcast, args: FieldArgs, ans: CopyAnswers, postId: PostId, ans2: SideloadAnswers)
    requires CivicrmPlan(s, value, prior, b, args, ans).metaWrite.Some?
    requires !IsEmptyText(CivicrmPlan(s, value, prior, b, args, ans).value.name)
    ensures var r := CivicrmPlan(s, value, prior, b, args, ans);
            var id := ResolveId(value, ans.urlId);
            var s2 := AfterCivicrm(s, r);
            AcfPlan(s2, Basename(r.value.name), id, postId, ans2) == AcfOutcome(id, None, None, None)
  {
    var r := CivicrmPlan(s, value, prior, b, args, ans);
    var id := ResolveId(value, ans.urlId);
    assert r.metaWrite.value.attachmentId == id;
    var s2 := AfterCivicrm(s, r);
    assert id != 0;
    assert MetadataGet(s2.postMeta, id).civicrmFile == r.value.name;
  }

  // ---------------------------------------------------------------------------------
  // CiviCRM File deletion: `entity_tag_pre_delete`

  /** The object of a `civi.dao.preDelete` event: an Entity Tag (its table and row) or anything else. */
  datatype DeleteEvent = EntityTagDeleted(entityTable: string, entityId: int) | OtherDeleted

  /** The effects of `entity_tag_pre_delete`: the API requests and the Attachment deleted, if any. */
  datatype PreDeleteOutcome = PreDeleteOutcome(calls: seq<ApiCall>, deleted: Option<int>)

  /** The event is the untagging of a CiviCRM File. */
  predicate TagsFile(e: DeleteEvent)
  {
    e.EntityTagDeleted? && !IsEmptyText(e.entityTable) && e.entityTable == "civicrm_file" && e.entityId != 0
  }

  /**
   * `entity_tag_pre_delete`: for an Entity Tag on a CiviCRM File, the File's `uri` is looked
   * up, and the first Attachment linked to that uri is deleted. A File that is not found
   * gives an empty uri; the source's check for `false` never fires.
   */
  function PreDeletePlan(s: Site, e: DeleteEvent): (r: PreDeleteOutcome)
    ensures !TagsFile(e) ==> r == PreDeleteOutcome([], None)
    ensures TagsFile(e) ==> r.calls == (if s.initialised then [FileLookupById(e.entityId)] else [])
    ensures r.deleted.Some? ==> r.deleted.value in s.postMeta && r.deleted.value != 0
  {
    match e
    case OtherDeleted => PreDeleteOutcome([], None)
    case EntityTagDeleted(table, entityId) =>
      if IsEmptyText(table) then PreDeleteOutcome([], None)
      else if table != "civicrm_file" then PreDeleteOutcome([], None)
      else if entityId == 0 then PreDeleteOutcome([], None)
      else
        var found := FileGetById(s.initialised, entityId, FileReplyById(s.crmFiles, entityId));
        var uri := if found.value.Some? then found.value.value.uri else "";
        var target := QueryByFile(s.postMeta, uri, "civicrm");
        if target.Some? && target.value != 0 then PreDeleteOutcome(found.calls, Some(target.value))
        else PreDeleteOutcome(found.calls, None)
  }

  /** The site after `wp_delete_attachment`: the Attachment, its file and its link record are gone. */
  function AfterPreDelete(s: Site, o: PreDeleteOutcome): (r: Site)
    ensures r.initialised == s.initialised && r.crmFiles == s.crmFiles
    ensures o.deleted.Some? ==> o.deleted.value !in r.postMeta && o.deleted.value !in r.attachedFiles
  {
    match o.deleted
    case None => s
    case Some(id) => s.(postMeta := s.postMeta - {id}, attachedFiles := s.attachedFiles - {id})
  }

  /** Deleting a tagged CiviCRM File deletes the first Attachment linked to its uri. */
  lemma PreDeleteRemovesLinked(s: Site, table: string, entityId: int)
    requires s.initialised && table == "civicrm_file" && entityId != 0
    requires RowsWithId(s.crmFiles, entityId) != []
    ensures var uri := Last(RowsWithId(s.crmFiles, entityId)).uri;
            var target := QueryByFile(s.postMeta, uri, "civicrm");
            var r := PreDeletePlan(s, EntityTagDeleted(table, entityId));
            r.calls == [FileLookupById(entityId)] &&
            r.deleted == (if target.Some? && target.value != 0 then target else None)
  {
  }

  /**
   * A tagged File that File.get does not find yields an empty uri, which every link
   * record contains: the least linked Attachment is deleted, whatever it is linked to.
   */
  lemma {:induction false} PreDeleteMissingFileDeletesFirstLinked(s: Site, entityId: int)
    requires entityId != 0 && RowsWithId(s.crmFiles, entityId) == []
    requires s.postMeta.Keys != {} && forall id :: id in s.postMeta ==> id > 0
    ensures var r := PreDeletePlan(s, EntityTagDeleted("civicrm_file", entityId));
            r.deleted.Some? && forall id :: id in s.postMeta ==> r.deleted.value <= id
  {
    QueryByEmptyNameFindsFirstLinked(s.postMeta, "civicrm");
  }

  /**
   * After the pre-delete handler the deleted Attachment has no link record at all: it is
   * removed, not rewritten with an empty CiviCRM file; every other record is untouched.
   */
  lemma PreDeleteLeavesNoLink(s: Site, e: DeleteEvent)
    requires PreDeletePlan(s, e).deleted.Some?
    ensures var id := PreDeletePlan(s, e).deleted.value;
            var s2 := AfterPreDelete(s, PreDeletePlan(s, e));
            MetadataGet(s2.postMeta, id) == NO_LINK && id !in s2.attachedFiles &&
            forall other :: other in s.postMeta && other != id ==> other in s2.postMeta && s2.postMeta[other] == s.postMeta[other]
  {
  }
}
