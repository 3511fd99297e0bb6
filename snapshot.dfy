/**
 * The pre-save snapshot of file-type fields. Just before ACF saves a batch of fields the
 * synchroniser lists every field of type "file" with its old value, because ACF gives no
 * other way of telling, afterwards, that a file field was just cleared or switched.
 */
module Snapshot {
  import opened Wrappers

  /** An ACF "Post ID": a number, or a named id such as "user_5", "term_3" or "option". */
  datatype PostId = NumericId(n: int) | NamedId(name: string)

  /** PHP's `(int)` cast of an ACF id; named ids start with a letter, so they cast to 0. */
  function IntCast(p: PostId): (r: int)
    ensures p.NamedId? ==> r == 0
  {
    match p
    case NumericId(n) => n
    case NamedId(_) => 0
  }

  /**
   * One field as `get_fields(..., false)` and `get_field_object` report it before the save:
   * its selector, its ACF type and its raw value read as an Attachment id (0 when empty).
   */
  datatype AcfField = AcfField(selector: string, fieldType: string, value: int)

  /** One snapshot entry: `post_id`, `selector` and the old `attachment_id`. */
  datatype FileField = FileField(postId: PostId, selector: string, attachmentId: int)

  /** The entry `acf_fields_pre_save` records for one field, if the field has type "file". */
  function EntryFor(postId: PostId, f: AcfField): (r: seq<FileField>)
    ensures |r| <= 1
    ensures r != [] <==> f.fieldType == "file"
  {
    if f.fieldType == "file" then [FileField(postId, f.selector, f.value)] else []
  }

  /** The snapshot for a batch: one entry per field of type "file", in field order. */
  function FileFieldsOf(postId: PostId, fields: seq<AcfField>): (r: seq<FileField>)
    ensures |r| <= |fields|
  {
    if fields == [] then []
    else EntryFor(postId, fields[0]) + FileFieldsOf(postId, fields[1..])
  }

  /** The snapshot holds exactly one entry, with the saved id, for each field of type "file". */
  lemma {:induction false} FileFieldsOfExactly(postId: PostId, fields: seq<AcfField>)
    ensures forall e :: e in FileFieldsOf(postId, fields) <==> e.postId == postId && AcfField(e.selector, "file", e.attachmentId) in fields
  {
    if fields != [] {
      FileFieldsOfExactly(postId, fields[1..]);
      assert fields == [fields[0]] + fields[1..];
    }
  }

  /** The snapshot of a single field is that field's entry, if any. */
  lemma FileFieldsOfOne(postId: PostId, f: AcfField)
    ensures FileFieldsOf(postId, [f]) == EntryFor(postId, f)
  {
    assert [f][1..] == [];
  }

  /** The snapshot of a batch is the snapshot of its first part followed by that of the rest. */
  lemma {:induction false} FileFieldsOfAppend(postId: PostId, a: seq<AcfField>, b: seq<AcfField>)
    ensures FileFieldsOf(postId, a + b) == FileFieldsOf(postId, a) + FileFieldsOf(postId, b)
  {
    if a == [] {
      assert a + b == b;
    } else {
      assert (a + b)[1..] == a[1..] + b;
      FileFieldsOfAppend(postId, a[1..], b);
    }
  }

  /** A snapshot entry answers a lookup when the selectors are equal and the ids cast to the same integer. */
  predicate Matches(e: FileField, selector: string, postId: PostId)
  {
    e.selector == selector && IntCast(e.postId) == IntCast(postId)
  }

  /** The lookup of `acf_field_pre_save_get`: the first entry that matches, if any. */
  function FindFileField(ff: seq<FileField>, selector: string, postId: PostId): (r: Option<FileField>)
    ensures r.Some? ==> Matches(r.value, selector, postId)
  {
    if ff == [] then None
    else if Matches(ff[0], selector, postId) then Some(ff[0])
    else FindFileField(ff[1..], selector, postId)
  }

  /** The lookup finds nothing iff no entry matches; otherwise it finds the first entry that matches. */
  lemma {:induction false} FindFileFieldFindsFirst(ff: seq<FileField>, selector: string, postId: PostId)
    ensures FindFileField(ff, selector, postId).None? <==> forall k :: 0 <= k < |ff| ==> !Matches(ff[k], selector, postId)
    ensures FindFileField(ff, selector, postId).Some? ==>
              exists k :: 0 <= k < |ff| && ff[k] == FindFileField(ff, selector, postId).value && Matches(ff[k], selector, postId) &&
                          forall j :: 0 <= j < k ==> !Matches(ff[j], selector, postId)
  {
    if ff != [] && !Matches(ff[0], selector, postId) {
      var r := FindFileField(ff[1..], selector, postId);
      FindFileFieldFindsFirst(ff[1..], selector, postId);
      assert forall k :: 1 <= k < |ff| ==> ff[k] == ff[1..][k - 1];
      if r.Some? {
        var k :| 0 <= k < |ff[1..]| && ff[1..][k] == r.value && Matches(ff[1..][k], selector, postId) &&
                 forall j :: 0 <= j < k ==> !Matches(ff[1..][j], selector, postId);
        assert ff[k + 1] == r.value;
        forall j | 0 <= j < k + 1 ensures !Matches(ff[j], selector, postId) {
          if j > 0 {
            assert ff[j] == ff[1..][j - 1];
          }
        }
      }
    } else if ff != [] {
      assert ff[0] == FindFileField(ff, selector, postId).value;
    }
  }

  /** The old `attachment_id` behind a lookup: `false['attachment_id']` is null, which reads as 0. */
  function PriorAttachment(found: Option<FileField>): (r: int)
    ensures found.None? ==> r == 0
  {
    match found
    case None => 0
    case Some(e) => e.attachmentId
  }

  /** The raw value of the first field of type "file" with this selector. */
  function FirstFileValue(fields: seq<AcfField>, selector: string): (r: Option<int>)
    ensures r.Some? ==> AcfField(selector, "file", r.value) in fields
  {
    if fields == [] then None
    else if fields[0].fieldType == "file" && fields[0].selector == selector then Some(fields[0].value)
    else FirstFileValue(fields[1..], selector)
  }

  /** What a fresh snapshot should answer for a lookup. */
  function ExpectedLookup(postId: PostId, fields: seq<AcfField>, selector: string, lookupId: PostId): (r: Option<FileField>)
    ensures r.Some? ==> r.value.postId == postId && r.value.selector == selector && IntCast(postId) == IntCast(lookupId)
  {
    if IntCast(postId) != IntCast(lookupId) then None
    else match FirstFileValue(fields, selector)
         case None => None
         case Some(v) => Some(FileField(postId, selector, v))
  }

  /** A lookup in a snapshot with a known first entry either stops there or goes on in the rest. */
  lemma FindOnCons(e: FileField, rest: seq<FileField>, selector: string, postId: PostId)
    ensures FindFileField([e] + rest, selector, postId) ==
            if Matches(e, selector, postId) then Some(e) else FindFileField(rest, selector, postId)
  {
    assert ([e] + rest)[0] == e;
    assert ([e] + rest)[1..] == rest;
  }

  /**
   * Looking up a freshly taken snapshot finds the old value of the first file field with
   * that selector, provided the ids cast to the same integer; otherwise nothing.
   */
  lemma {:induction false} PreSaveThenLookup(postId: PostId, fields: seq<AcfField>, selector: string, lookupId: PostId)
    ensures FindFileField(FileFieldsOf(postId, fields), selector, lookupId) == ExpectedLookup(postId, fields, selector, lookupId)
  {
    if fields != [] {
      PreSaveThenLookup(postId, fields[1..], selector, lookupId);
      var rest := FileFieldsOf(postId, fields[1..]);
      var f := fields[0];
      if f.fieldType == "file" {
        var e := FileField(postId, f.selector, f.value);
        assert FileFieldsOf(postId, fields) == [e] + rest;
        FindOnCons(e, rest, selector, lookupId);
        if f.selector == selector {
          assert FirstFileValue(fields, selector) == Some(f.value);
        } else {
          assert FirstFileValue(fields, selector) == FirstFileValue(fields[1..], selector);
          assert !Matches(e, selector, lookupId);
        }
      } else {
        assert FileFieldsOf(postId, fields) == rest;
        assert FirstFileValue(fields, selector) == FirstFileValue(fields[1..], selector);
      }
    }
  }

  /**
   * Every named ACF id casts to 0, so a snapshot taken for one named id ("user_5")
   * also answers lookups for another ("term_3").
   */
  lemma NamedIdsShareLookups(e: FileField, selector: string, a: string, b: string)
    requires e.postId == NamedId(a) && e.selector == selector
    ensures Matches(e, selector, NamedId(b))
  {
  }
}
