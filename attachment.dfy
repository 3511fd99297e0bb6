/**
 * The synchroniser object itself: its registration flags, the pre-save snapshot, the
 * per-filter cache of Attachment fields, and the state of the two systems it touches
 * (link records, stored files, CiviCRM's File table). What it sends out (API requests,
 * mimicked broadcasts, sideloads, deleted Attachments) is appended to logs, so that each
 * method can state exactly what it did.
 */
module AttachmentSync {
  import opened Wrappers
  import opened Paths
  import opened CrmApi
  import opened LinkMeta
  import opened Snapshot
  import opened Reconcile

  class Attachment {
    /** The Mapper callbacks are registered. */
    var mapperHooks: bool
    /** The CiviCRM listeners are registered. */
    var civicrmHooks: bool
    /** The `register_hooks` callback is on "cwps/acf/civicrm/loaded". */
    var loadedHooked: bool
    /** The pre-save callback is on "cwps/acf/mapper/acf_fields/saved/pre" (WordPress keeps one entry per callback). */
    var preSaveHooked: bool
    /** The `civicrm_config` callback is on "civicrm_config". */
    var configHooked: bool
    /** How many times the pre-delete callback is on "civi.dao.preDelete" (the dispatcher keeps duplicates). */
    var preDeleteListeners: nat

    /** The pre-save snapshot of file fields. */
    var fileFields: seq<FileField>
    /** `civicrm_fields_get`'s cache, keyed by filter. */
    var pseudocache: map<string, seq<FieldSpec>>

    /** Whether CiviCRM is initialised. */
    var initialised: bool
    /** The link records of the WordPress Attachments. */
    var postMeta: map<int, LinkRecord>
    /** The file each WordPress Attachment is stored in. */
    var attachedFiles: map<int, string>
    /** CiviCRM's File table, in id order. */
    var crmFiles: seq<CrmFile>

    /** The CiviCRM API requests sent so far. */
    var crmCalls: seq<ApiCall>
    /** The `custom_edited` broadcasts made so far. */
    var edits: seq<CustomEdit>
    /** The sideload requests made so far. */
    var sideloads: seq<SideloadRequest>
    /** The WordPress Attachments deleted so far. */
    var deleted: seq<int>

    /** The registration flags agree with what is actually hooked. */
    predicate Valid()
      reads this
    {
      preSaveHooked == mapperHooks && preDeleteListeners == (if civicrmHooks then 1 else 0)
    }

    /** The state the transforms read. */
    function State(): (s: Site)
      reads this
    {
      Site(initialised, postMeta, attachedFiles, crmFiles)
    }

    /** A fresh synchroniser waits for the ACF CiviCRM object to load; nothing else is hooked. */
    constructor (initialised: bool, postMeta: map<int, LinkRecord>, attachedFiles: map<int, string>, crmFiles: seq<CrmFile>)
      ensures Valid() && loadedHooked
      ensures !mapperHooks && !civicrmHooks && !configHooked
      ensures fileFields == [] && pseudocache == map[]
      ensures State() == Site(initialised, postMeta, attachedFiles, crmFiles)
      ensures crmCalls == [] && edits == [] && sideloads == [] && deleted == []
    {
      mapperHooks, civicrmHooks := false, false;
      loadedHooked, preSaveHooked, configHooked, preDeleteListeners := true, false, false, 0;
      fileFields, pseudocache := [], map[];
      this.initialised, this.postMeta, this.attachedFiles, this.crmFiles := initialised, postMeta, attachedFiles, crmFiles;
      crmCalls, edits, sideloads, deleted := [], [], [], [];
    }

    // -------------------------------------------------------------------------------
    // Registration

    /** `register_hooks`: the Mapper callbacks, and a wait for CiviCRM's configuration. */
    method RegisterHooks()
      requires Valid()
      modifies this`mapperHooks, this`preSaveHooked, this`configHooked
      ensures Valid() && mapperHooks && preSaveHooked && configHooked
    {
      RegisterMapperHooks();
      configHooked := true;
    }

    /** `register_mapper_hooks`: hooks the pre-save callback unless already registered. */
    method RegisterMapperHooks()
      requires Valid()
      modifies this`mapperHooks, this`preSaveHooked
      ensures Valid() && mapperHooks && preSaveHooked
    {
      if mapperHooks {
        return;
      }
      preSaveHooked := true;
      mapperHooks := true;
    }

    /** `unregister_mapper_hooks`: unhooks the pre-save callback unless already unregistered. */
    method UnregisterMapperHooks()
      requires Valid()
      modifies this`mapperHooks, this`preSaveHooked
      ensures Valid() && !mapperHooks && !preSaveHooked
    {
      if !mapperHooks {
        return;
      }
      preSaveHooked := false;
      mapperHooks := false;
    }

    /** `civicrm_config`: CiviCRM is available, so its listeners are added. */
    method CivicrmConfig()
      requires Valid()
      modifies this`civicrmHooks, this`preDeleteListeners
      ensures Valid() && civicrmHooks && preDeleteListeners == 1
    {
      RegisterCivicrmHooks();
    }

    /**
     * `register_civicrm_hooks`: adds the pre-delete listener unless already registered.
     * The flag is what keeps the dispatcher from holding the listener twice.
     */
    method RegisterCivicrmHooks()
      requires Valid()
      modifies this`civicrmHooks, this`preDeleteListeners
      ensures Valid() && civicrmHooks && preDeleteListeners == 1
    {
      if civicrmHooks {
        return;
      }
      preDeleteListeners := preDeleteListeners + 1;
      civicrmHooks := true;
    }

    /** `unregister_civicrm_hooks`: removes the pre-delete listener unless already unregistered. */
    method UnregisterCivicrmHooks()
      requires Valid()
      modifies this`civicrmHooks, this`preDeleteListeners
      ensures Valid() && !civicrmHooks && preDeleteListeners == 0
    {
      if !civicrmHooks {
        return;
      }
      preDeleteListeners := 0;
      civicrmHooks := false;
    }

    // -------------------------------------------------------------------------------
    // Attachment fields

    /**
     * `civicrm_fields_get`: a cached filter is answered from the cache with no request.
     * Without CiviCRM the answer is empty and is not cached. Otherwise getfields is
     * requested once and its filtered answer is cached under the filter.
     */
    method CivicrmFieldsGet(filter: string, reply: Envelope<FieldSpec>) returns (fields: seq<FieldSpec>)
      modifies this`pseudocache, this`crmCalls
      ensures filter in old(pseudocache) ==> fields == old(pseudocache)[filter] && pseudocache == old(pseudocache) && crmCalls == old(crmCalls)
      ensures filter !in old(pseudocache) && !initialised ==> fields == [] && pseudocache == old(pseudocache) && crmCalls == old(crmCalls)
      ensures filter !in old(pseudocache) && initialised ==>
                fields == FieldsFor(filter, reply) && pseudocache == old(pseudocache)[filter := fields] && crmCalls == old(crmCalls) + [AttachmentGetFields]
    {
      if filter in pseudocache {
        return pseudocache[filter];
      }
      fields := [];
      if !initialised {
        return;
      }
      crmCalls := crmCalls + [AttachmentGetFields];
      if reply.isError == 0 && reply.values != [] {
        if filter == "none" {
          fields := reply.values;
        } else if filter == "public" {
          var i := 0;
          while i < |reply.values|
            invariant 0 <= i <= |reply.values|
            invariant fields == PublicFields(reply.values[..i])
            invariant pseudocache == old(pseudocache) && crmCalls == old(crmCalls) + [AttachmentGetFields]
          {
            PublicFieldsAppend(reply.values[..i], [reply.values[i]]);
            assert reply.values[..i + 1] == reply.values[..i] + [reply.values[i]];
            if IsPublic(reply.values[i]) {
              fields := fields + [reply.values[i]];
            }
            i := i + 1;
          }
          assert reply.values[..i] == reply.values;
        }
      }
      pseudocache := pseudocache[filter := fields];
    }

    // -------------------------------------------------------------------------------
    // The pre-save snapshot

    /**
     * `acf_fields_pre_save`: unless the save is for a revision, replaces the snapshot
     * with the file fields of the batch (`fields`, what ACF reports before the save).
     */
    method AcfFieldsPreSave(postId: PostId, isRevision: bool, fields: seq<AcfField>)
      modifies this`fileFields
      ensures postId.NumericId? && isRevision ==> fileFields == old(fileFields)
      ensures !(postId.NumericId? && isRevision) ==> fileFields == FileFieldsOf(postId, fields)
    {
      if postId.NumericId? && isRevision {
        return;
      }
      fileFields := [];
      var i := 0;
      while i < |fields|
        invariant 0 <= i <= |fields|
        invariant fileFields == FileFieldsOf(postId, fields[..i])
      {
        FileFieldsOfAppend(postId, fields[..i], [fields[i]]);
        FileFieldsOfOne(postId, fields[i]);
        assert fields[..i + 1] == fields[..i] + [fields[i]];
        if fields[i].fieldType == "file" {
          fileFields := fileFields + [FileField(postId, fields[i].selector, fields[i].value)];
        }
        i := i + 1;
      }
      assert fields[..i] == fields;
    }

    /** `acf_field_pre_save_get`: the first snapshot entry for this selector and id. */
    method AcfFieldPreSaveGet(selector: string, postId: PostId) returns (r: Option<FileField>)
      ensures r == FindFileField(fileFields, selector, postId)
    {
      r := None;
      if fileFields == [] {
        return;
      }
      var i := 0;
      while i < |fileFields|
        invariant 0 <= i <= |fileFields|
        invariant FindFileField(fileFields[i..], selector, postId) == FindFileField(fileFields, selector, postId)
      {
        var field := fileFields[i];
        assert fileFields[i..] == [field] + fileFields[i + 1..];
        FindOnCons(field, fileFields[i + 1..], selector, postId);
        if field.selector != selector {
          i := i + 1;
          continue;
        }
        if IntCast(field.postId) != IntCast(postId) {
          i := i + 1;
          continue;
        }
        r := Some(field);
        break;
      }
    }

    // -------------------------------------------------------------------------------
    // Link records

    /** `metadata_set`: both paths of one Attachment are written. */
    method MetadataSet(attachmentId: int, rec: LinkRecord)
      modifies this`postMeta
      ensures postMeta == old(postMeta)[attachmentId := rec]
    {
      postMeta := postMeta[attachmentId := rec];
    }

    /** `metadata_delete`: both paths of one Attachment are removed. */
    method MetadataDelete(attachmentId: int)
      modifies this`postMeta
      ensures postMeta == old(postMeta) - {attachmentId}
    {
      postMeta := postMeta - {attachmentId};
    }

    // -------------------------------------------------------------------------------
    // Transforms

    /** `mimic_civicrm_custom`: one cleared-File broadcast per Entity Table. */
    method MimicCivicrmCustom(b: Broadcast, args: FieldArgs)
      modifies this`edits
      ensures edits == old(edits) + EditsFor(b.tables, b, args)
    {
      var k := 0;
      while k < |b.tables|
        invariant 0 <= k <= |b.tables|
        invariant edits == old(edits) + EditsFor(b.tables[..k], b, args)
      {
        EditsForAppend(b.tables[..k], [b.tables[k]], b, args);
        assert b.tables[..k + 1] == b.tables[..k] + [b.tables[k]];
        edits := edits + [ClearedEdit(b.tables[k], b, args)];
        k := k + 1;
      }
      assert b.tables[..k] == b.tables;
    }

    /** Deletes the CiviCRM Attachment behind a stored CiviCRM path, if File.get finds it by name. */
    method RetireLinked(civicrmFile: string, b: Broadcast, args: FieldArgs)
      modifies this`crmCalls, this`edits
      ensures var retired := Retire(old(State()), civicrmFile, b, args);
              crmCalls == old(crmCalls) + retired.0 && edits == old(edits) + retired.1
    {
      ghost var retired := Retire(State(), civicrmFile, b, args);
      var name := Basename(civicrmFile);
      var found := FileGetByName(initialised, name, FileReplyByUri(crmFiles, name));
      if found.value.Some? {
        assert retired == (found.calls + [AttachmentDelete(found.value.value.id)], EditsFor(b.tables, b, args));
        crmCalls := crmCalls + (found.calls + [AttachmentDelete(found.value.value.id)]);
        MimicCivicrmCustom(b, args);
      } else {
        assert retired == (found.calls, []);
        crmCalls := crmCalls + found.calls;
      }
    }

    /** The empty-value branch of `value_get_for_civicrm`: retire the previously linked CiviCRM Attachment. */
    method ClearField(priorId: int, b: Broadcast, args: FieldArgs)
      modifies this`crmCalls, this`edits
      ensures var o := ClearPlan(old(State()), priorId, b, args);
              crmCalls == old(crmCalls) + o.calls && edits == old(edits) + o.edits
    {
      ghost var s := State();
      if priorId == 0 {
        return;
      }
      var meta := MetadataGet(postMeta, priorId);
      if IsEmptyText(meta.civicrmFile) {
        return;
      }
      RetireLinked(meta.civicrmFile, b, args);
      assert ClearPlan(s, priorId, b, args).calls == Retire(s, meta.civicrmFile, b, args).0;
    }

    /**
     * The branch of `value_get_for_civicrm` for a value naming Attachment `attachmentId`:
     * retire a previously linked Attachment on a switch, copy the file into CiviCRM's
     * upload directory and write the link record.
     */
    method SendField(attachmentId: int, priorId: int, b: Broadcast, args: FieldArgs, ans: CopyAnswers) returns (r: CivicrmValue)
      modifies this`crmCalls, this`edits, this`postMeta
      ensures var o := SendPlan(old(State()), attachmentId, priorId, b, args, ans);
              r == o.value && crmCalls == old(crmCalls) + o.calls && edits == old(edits) + o.edits &&
              State() == AfterCivicrm(old(State()), o)
    {
      ghost var s := State();
      ghost var o := SendPlan(s, attachmentId, priorId, b, args, ans);
      var file := if attachmentId in attachedFiles then attachedFiles[attachmentId] else "";
      assert file == AttachedFile(s, attachmentId);
      var meta := MetadataGet(postMeta, attachmentId);
      if meta.wordpressFile == file {
        assert Unchanged(s, attachmentId);
        return NoFile;
      }
      assert !Unchanged(s, attachmentId);
      ghost var retired := SwitchRetire(s, priorId, attachmentId, b, args);
      if priorId != 0 && priorId != attachmentId {
        var previous := MetadataGet(postMeta, priorId);
        if !IsEmptyText(previous.civicrmFile) {
          RetireLinked(previous.civicrmFile, b, args);
          assert retired == Retire(s, previous.civicrmFile, b, args);
        } else {
          assert retired == ([], []);
        }
      } else {
        assert retired == ([], []);
      }
      assert crmCalls == old(crmCalls) + retired.0 && edits == old(edits) + retired.1;
      var newFile := CopyForCivicrm(initialised, file, ans.newName, ans.copyOk);
      if newFile.None? {
        assert o == CivicrmOutcome(NoFile, retired.0, retired.1, None);
        return NoFile;
      }
      MetadataSet(attachmentId, LinkRecord(file, newFile.value));
      r := FileDescriptor(newFile.value, ans.mimeType);
      assert o == CivicrmOutcome(r, retired.0, retired.1, Some(MetaWrite(attachmentId, LinkRecord(file, newFile.value))));
    }

    /**
     * `value_get_for_civicrm`: what the CiviCRM Custom Field receives for an ACF File
     * value, with the requests, broadcasts and link record of `CivicrmPlan`.
     */
    method ValueGetForCivicrm(value: FieldValue, b: Broadcast, args: FieldArgs, ans: CopyAnswers) returns (r: CivicrmValue)
      modifies this`crmCalls, this`edits, this`postMeta
      ensures var o := CivicrmPlan(old(State()), value, FindFileField(fileFields, args.selector, args.postId), b, args, ans);
              r == o.value && crmCalls == old(crmCalls) + o.calls && edits == old(edits) + o.edits &&
              State() == AfterCivicrm(old(State()), o)
    {
      var fileField := AcfFieldPreSaveGet(args.selector, args.postId);
      var priorId := PriorAttachment(fileField);
      if IsEmptyValue(value) {
        ClearField(priorId, b, args);
        return NoFile;
      }
      var attachmentId := ResolveId(value, ans.urlId);
      if attachmentId == 0 {
        return NoFile;
      }
      r := SendField(attachmentId, priorId, b, args, ans);
    }

    /**
     * `value_get_for_acf`: the Attachment id the ACF field receives for a CiviCRM file
     * name, with the sideload, new Attachment and link record of `AcfPlan`.
     */
    method ValueGetForAcf(value: string, existing: int, postId: PostId, ans: SideloadAnswers) returns (r: int)
      modifies this`postMeta, this`attachedFiles, this`sideloads
      ensures var o := AcfPlan(old(State()), value, existing, postId, ans);
              r == o.value && State() == AfterAcf(old(State()), o) &&
              sideloads == old(sideloads) + (if o.request.Some? then [o.request.value] else [])
    {
      ghost var s := State();
      ghost var o := AcfPlan(s, value, existing, postId, ans);
      var sync := false;
      if existing == 0 {
        sync := true;
      } else {
        var meta := MetadataGet(postMeta, existing);
        if !IsEmptyText(meta.civicrmFile) {
          var filename := Basename(meta.civicrmFile);
          if !IsEmptyText(filename) && filename != value {
            sync := true;
          }
        }
      }
      assert sync == SyncNeeded(existing, MetadataGet(s.postMeta, existing), value);
      if !sync {
        assert o == AcfOutcome(existing, None, None, None);
        return existing;
      }
      var possibleId := QueryByFile(postMeta, value, "civicrm");
      if possibleId.Some? && possibleId.value != 0 {
        assert o == AcfOutcome(possibleId.value, None, None, None);
        return possibleId.value;
      }
      assert o == SideloadPlan(s, value, postId, ans);
      r := SideloadDuplicate(value, postId, ans);
    }

    /** The sideload branch of `value_get_for_acf`, as `SideloadPlan` says. */
    method SideloadDuplicate(value: string, postId: PostId, ans: SideloadAnswers) returns (r: int)
      modifies this`postMeta, this`attachedFiles, this`sideloads
      ensures var o := SideloadPlan(old(State()), value, postId, ans);
              r == o.value && State() == AfterAcf(old(State()), o) && sideloads == old(sideloads) + [o.request.value]
    {
      ghost var o := SideloadPlan(State(), value, postId, ans);
      var tmpName := CopyForAcf(initialised, ans.duplicate);
      var tmpPath := if tmpName.Some? then tmpName.value else "";
      var request := SideloadRequest(Basename(tmpPath), ans.fileType, tmpName, 0, ans.size, ParentOf(postId));
      sideloads := sideloads + [request];
      if ans.sideload.None? {
        assert o == AcfOutcome(0, Some(request), None, None);
        return 0;
      }
      var created := ans.sideload.value;
      assert o == AcfOutcome(created.attachmentId, Some(request), Some(MetaWrite(created.attachmentId, LinkRecord(created.file, ans.uploadDir + value))), Some(created));
      attachedFiles := attachedFiles[created.attachmentId := created.file];
      MetadataSet(created.attachmentId, LinkRecord(created.file, ans.uploadDir + value));
      r := created.attachmentId;
    }

    /**
     * `entity_tag_pre_delete`: deletes the WordPress Attachment linked to an untagged CiviCRM
     * File, as `PreDeletePlan` says.
     */
    method EntityTagPreDelete(e: DeleteEvent)
      modifies this`crmCalls, this`postMeta, this`attachedFiles, this`deleted
      ensures var o := PreDeletePlan(old(State()), e);
              crmCalls == old(crmCalls) + o.calls && State() == AfterPreDelete(old(State()), o) &&
              deleted == old(deleted) + (if o.deleted.Some? then [o.deleted.value] else [])
    {
      if !e.EntityTagDeleted? {
        return;
      }
      if IsEmptyText(e.entityTable) {
        return;
      }
      if e.entityTable != "civicrm_file" {
        return;
      }
      if e.entityId == 0 {
        return;
      }
      var civicrmFile := FileGetById(initialised, e.entityId, FileReplyById(crmFiles, e.entityId));
      crmCalls := crmCalls + civicrmFile.calls;
      var uri := if civicrmFile.value.Some? then civicrmFile.value.value.uri else "";
      var attachmentId := QueryByFile(postMeta, uri, "civicrm");
      if attachmentId.None? || attachmentId.value == 0 {
        return;
      }
      postMeta := postMeta - {attachmentId.value};
      attachedFiles := attachedFiles - {attachmentId.value};
      deleted := deleted + [attachmentId.value];
    }
  }
}
