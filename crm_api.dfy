/**
 * The synchroniser's thin wrappers over the CiviCRM API (version 3): `create`, `update`,
 * `delete`, `get_by_id`, `get_for_entity`, `file_get_by_id`, `file_get_by_name`, and
 * the filtering done by `civicrm_fields_get`.
 *
 * The API itself is not modelled. Each wrapper receives the reply the API would give
 * (`Envelope`) and returns what it makes of that reply together with the requests it
 * actually issued (`Answer.calls`), so that "the API is never called" can be stated.
 */
module CrmApi {
  import opened Wrappers

  /** An API reply: its `is_error` flag and the records under `values`, in reply order. */
  datatype Envelope<T> = Envelope(isError: int, values: seq<T>)

  /** The reply to Attachment.delete, whose `values` is the number of rows removed. */
  datatype DeleteReply = DeleteReply(isError: int, values: int)

  /** The data passed to Attachment.create; an `id` of 0 stands for "no id". */
  datatype AttachmentData = AttachmentData(id: int, entityTable: string, entityId: int, name: string, mimeType: string)

  /** An Attachment record as the API returns it. */
  datatype AttachmentRecord = AttachmentRecord(id: int, entityTable: string, entityId: int, name: string, mimeType: string)

  /** A File record: its id and its `uri` (the file name in CiviCRM's upload directory). */
  datatype CrmFile = CrmFile(id: int, uri: string)

  /** One entry of Attachment.getfields. */
  datatype FieldSpec = FieldSpec(name: string, title: string)

  /** The API requests the synchroniser issues. */
  datatype ApiCall =
    | AttachmentCreate(data: AttachmentData)
    | AttachmentDelete(id: int)
    | AttachmentGet(id: int)
    | AttachmentGetForEntity(entityTable: string, entityId: int)
    | AttachmentGetFields
    | FileLookupById(id: int)
    | FileLookupByUri(uri: string)

  /** What a wrapper returns, with the requests it sent. */
  datatype Answer<T> = Answer(value: T, calls: seq<ApiCall>)

  /** The public Attachment fields, keyed by name, with the ACF field type each maps to. */
  const ATTACHMENT_FIELDS: map<string, string> := map["file" := "file", "content" := "text"]

  /** The last element of a non-empty sequence (what `array_pop` hands back). */
  function Last<T>(s: seq<T>): (r: T)
    requires s != []
    ensures r in s
  {
    s[|s| - 1]
  }

  /**
   * The reading every single-record wrapper applies to a reply: an `is_error` of exactly 1
   * or an empty `values` is a failure; otherwise the last record is the result.
   */
  function Unwrap<T>(reply: Envelope<T>): (r: Option<T>)
    ensures r.Some? <==> reply.isError != 1 && reply.values != []
    ensures r.Some? ==> r.value == Last(reply.values)
  {
    if reply.isError == 1 then None
    else if reply.values == [] then None
    else Some(Last(reply.values))
  }

  /** `create`: Attachment.create is sent only when CiviCRM is initialised. */
  function Create(initialised: bool, data: AttachmentData, reply: Envelope<AttachmentRecord>): (r: Answer<Option<AttachmentRecord>>)
    ensures r.calls == (if initialised then [AttachmentCreate(data)] else [])
    ensures r.value.Some? <==> initialised && reply.isError != 1 && reply.values != []
    ensures r.value.Some? ==> r.value.value == Last(reply.values)
  {
    if !initialised then Answer(None, [])
    else Answer(Unwrap(reply), [AttachmentCreate(data)])
  }

  /** `update`: refuses data without an id, otherwise is exactly `create`. */
  function Update(initialised: bool, data: AttachmentData, reply: Envelope<AttachmentRecord>): (r: Answer<Option<AttachmentRecord>>)
    ensures data.id == 0 ==> r.value == None && r.calls == []
    ensures data.id != 0 ==> r == Create(initialised, data, reply)
  {
    if data.id == 0 then Answer(None, [])
    else Create(initialised, data, reply)
  }

  /** `delete`: succeeds only on an unflagged reply reporting exactly one removed row. */
  function Delete(initialised: bool, id: int, reply: DeleteReply): (r: Answer<bool>)
    ensures r.calls == (if initialised then [AttachmentDelete(id)] else [])
    ensures r.value <==> initialised && reply.isError != 1 && reply.values == 1
  {
    if !initialised then Answer(false, [])
    else
      var calls := [AttachmentDelete(id)];
      if reply.isError == 1 then Answer(false, calls)
      else if reply.values == 0 then Answer(false, calls)
      else Answer(reply.values == 1, calls)
  }

  /** `get_by_id`: one Attachment, or nothing (the source's `[]`). */
  function GetById(initialised: bool, id: int, reply: Envelope<AttachmentRecord>): (r: Answer<Option<AttachmentRecord>>)
    ensures r.calls == (if initialised then [AttachmentGet(id)] else [])
    ensures r.value.Some? <==> initialised && reply.isError != 1 && reply.values != []
    ensures r.value.Some? ==> r.value.value == Last(reply.values)
  {
    if !initialised then Answer(None, [])
    else Answer(Unwrap(reply), [AttachmentGet(id)])
  }

  /** `get_for_entity`: every Attachment of `civicrm_<entity>` row `entityId`, or none. */
  function GetForEntity(initialised: bool, entity: string, entityId: int, reply: Envelope<AttachmentRecord>): (r: Answer<seq<AttachmentRecord>>)
    ensures r.calls == (if entityId != 0 && initialised then [AttachmentGetForEntity("civicrm_" + entity, entityId)] else [])
    ensures r.value == [] || (r.value == reply.values && entityId != 0 && initialised && reply.isError != 1)
    ensures entityId != 0 && initialised && reply.isError != 1 ==> r.value == reply.values
  {
    if entityId == 0 then Answer([], [])
    else if !initialised then Answer([], [])
    else
      var calls := [AttachmentGetForEntity("civicrm_" + entity, entityId)];
      if reply.isError == 1 then Answer([], calls)
      else if reply.values == [] then Answer([], calls)
      else Answer(reply.values, calls)
  }

  /** `file_get_by_id`: one File, or nothing (the source's `[]`, never `false`). */
  function FileGetById(initialised: bool, id: int, reply: Envelope<CrmFile>): (r: Answer<Option<CrmFile>>)
    ensures r.calls == (if initialised then [FileLookupById(id)] else [])
    ensures r.value.Some? <==> initialised && reply.isError != 1 && reply.values != []
    ensures r.value.Some? ==> r.value.value == Last(reply.values)
  {
    if !initialised then Answer(None, [])
    else Answer(Unwrap(reply), [FileLookupById(id)])
  }

  /** `file_get_by_name`: the File whose `uri` is `filename`, or nothing. */
  function FileGetByName(initialised: bool, filename: string, reply: Envelope<CrmFile>): (r: Answer<Option<CrmFile>>)
    ensures r.calls == (if initialised then [FileLookupByUri(filename)] else [])
    ensures r.value.Some? <==> initialised && reply.isError != 1 && reply.values != []
    ensures r.value.Some? ==> r.value.value == Last(reply.values)
  {
    if !initialised then Answer(None, [])
    else Answer(Unwrap(reply), [FileLookupByUri(filename)])
  }

  /** A getfields entry is public when its name is a key of the public Attachment fields. */
  predicate IsPublic(f: FieldSpec)
  {
    f.name in ATTACHMENT_FIELDS
  }

  /** The public entries of a getfields reply, in reply order. */
  function PublicFields(values: seq<FieldSpec>): (r: seq<FieldSpec>)
    ensures |r| <= |values|
  {
    if values == [] then []
    else if IsPublic(values[0]) then [values[0]] + PublicFields(values[1..])
    else PublicFields(values[1..])
  }

  /** The filter keeps exactly the public entries: nothing else, and none of them is lost. */
  lemma {:induction false} PublicFieldsExactly(values: seq<FieldSpec>)
    ensures |PublicFields(values)| <= |values|
    ensures forall f :: f in PublicFields(values) <==> f in values && IsPublic(f)
  {
    if values != [] {
      PublicFieldsExactly(values[1..]);
      assert values == [values[0]] + values[1..];
    }
  }

  /** Filtering is done entry by entry, so it keeps the reply's order. */
  lemma {:induction false} PublicFieldsAppend(a: seq<FieldSpec>, b: seq<FieldSpec>)
    ensures PublicFields(a + b) == PublicFields(a) + PublicFields(b)
  {
    if a != [] {
      assert (a + b)[1..] == a[1..] + b;
      PublicFieldsAppend(a[1..], b);
    } else {
      assert a + b == b;
    }
  }

  /** A reply made only of public entries passes the filter unchanged. */
  lemma {:induction false} PublicFieldsKeepsPublic(values: seq<FieldSpec>)
    requires forall k :: 0 <= k < |values| ==> IsPublic(values[k])
    ensures PublicFields(values) == values
  {
    if values != [] {
      PublicFieldsKeepsPublic(values[1..]);
    }
  }

  /**
   * What `civicrm_fields_get` computes from a getfields reply (once CiviCRM is up):
   * everything for "none", the public entries for "public", nothing for any other
   * filter or when the reply is flagged or empty.
   */
  function FieldsFor(filter: string, reply: Envelope<FieldSpec>): (r: seq<FieldSpec>)
    ensures reply.isError != 0 || reply.values == [] ==> r == []
    ensures reply.isError == 0 && filter == "none" ==> r == reply.values
    ensures reply.isError == 0 && filter == "public" ==> r == PublicFields(reply.values)
    ensures filter != "none" && filter != "public" ==> r == []
  {
    if reply.isError == 0 && reply.values != [] then
      if filter == "none" then reply.values
      else if filter == "public" then PublicFields(reply.values)
      else []
    else []
  }
}
