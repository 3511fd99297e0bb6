/**
 * The link record kept on each WordPress Attachment: two post-meta values,
 * `_cwps_attachment_wordpress_file` and `_cwps_attachment_civicrm_file`, holding the
 * paths last synchronised on either side. Post-meta is a map from the Attachment id to
 * the two stored values; `metadata_set` writes both, `metadata_delete` removes both.
 */
module LinkMeta {
  import opened Wrappers
  import opened Paths

  /** The two stored paths of one Attachment. */
  datatype LinkRecord = LinkRecord(wordpressFile: string, civicrmFile: string)

  /** The record `metadata_get` hands back for an Attachment that was never linked. */
  const NO_LINK := LinkRecord("", "")

  /** `get_post_meta(..., true)` followed by the `empty()` test: a stored "" or "0" reads as "". */
  function ReadMeta(stored: string): (r: string)
    ensures IsEmptyText(stored) ==> r == ""
    ensures !IsEmptyText(stored) ==> r == stored
    ensures !IsEmptyText(r) <==> !IsEmptyText(stored)
  {
    if IsEmptyText(stored) then "" else stored
  }

  /**
   * `metadata_get`: both paths, with "" for a key that is unset or empty. The result
   * always carries both keys, so it is never the empty array.
   */
  function MetadataGet(meta: map<int, LinkRecord>, id: int): (r: LinkRecord)
    ensures id !in meta ==> r == NO_LINK
    ensures id in meta ==> r == LinkRecord(ReadMeta(meta[id].wordpressFile), ReadMeta(meta[id].civicrmFile))
    ensures id in meta && !IsEmptyText(meta[id].wordpressFile) ==> r.wordpressFile == meta[id].wordpressFile
    ensures id in meta && !IsEmptyText(meta[id].civicrmFile) ==> r.civicrmFile == meta[id].civicrmFile
    ensures IsEmptyText(r.wordpressFile) ==> r.wordpressFile == ""
    ensures IsEmptyText(r.civicrmFile) ==> r.civicrmFile == ""
  {
    var stored := if id in meta then meta[id] else NO_LINK;
    LinkRecord(ReadMeta(stored.wordpressFile), ReadMeta(stored.civicrmFile))
  }

  /**
   * `metadata_set` followed by `metadata_get` reads each path written back through
   * `empty()`: a non-empty path as written, "" or "0" as "".
   */
  lemma MetadataSetThenGet(meta: map<int, LinkRecord>, id: int, rec: LinkRecord)
    ensures MetadataGet(meta[id := rec], id) == LinkRecord(ReadMeta(rec.wordpressFile), ReadMeta(rec.civicrmFile))
    ensures !IsEmptyText(rec.wordpressFile) ==> MetadataGet(meta[id := rec], id).wordpressFile == rec.wordpressFile
    ensures !IsEmptyText(rec.civicrmFile) ==> MetadataGet(meta[id := rec], id).civicrmFile == rec.civicrmFile
    ensures IsEmptyText(rec.wordpressFile) ==> MetadataGet(meta[id := rec], id).wordpressFile == ""
    ensures IsEmptyText(rec.civicrmFile) ==> MetadataGet(meta[id := rec], id).civicrmFile == ""
  {
  }

  /** `metadata_set` on one Attachment leaves every other Attachment's record as it was. */
  lemma MetadataSetElsewhere(meta: map<int, LinkRecord>, id: int, rec: LinkRecord, other: int)
    requires other != id
    ensures MetadataGet(meta[id := rec], other) == MetadataGet(meta, other)
  {
  }

  /** `metadata_delete` followed by `metadata_get` gives two empty paths. */
  lemma MetadataDeleteThenGet(meta: map<int, LinkRecord>, id: int)
    ensures MetadataGet(meta - {id}, id) == NO_LINK
  {
  }

  /** The stored value `query_by_file` compares against: the CiviCRM key unless `source` is not "civicrm". */
  function KeyValue(rec: LinkRecord, source: string): (r: string)
    ensures source == "civicrm" ==> r == rec.civicrmFile
    ensures source != "civicrm" ==> r == rec.wordpressFile
  {
    if source == "civicrm" then rec.civicrmFile else rec.wordpressFile
  }

  /** Some element of a non-empty set. */
  lemma PickIn<T>(s: set<T>) returns (x: T)
    requires s != {}
    ensures x in s
  {
    x :| x in s;
  }

  /** Every finite non-empty set of ids has a least element. */
  lemma {:induction false} LeastExists(s: set<int>)
    requires s != {}
    ensures exists m :: m in s && forall x :: x in s ==> m <= x
    decreases |s|
  {
    var x := PickIn(s);
    if s != {x} {
      LeastExists(s - {x});
      var m :| m in s - {x} && forall y :: y in s - {x} ==> m <= y;
      var least := if x < m then x else m;
      forall y | y in s ensures least <= y {
        if y != x {
          assert y in s - {x};
        }
      }
      assert least in s;
    } else {
      assert forall y :: y in s ==> x <= y;
    }
  }

  /** The least element of a finite non-empty set of ids. */
  function LeastOf(s: set<int>): (m: int)
    requires s != {}
    ensures m in s
    ensures forall x :: x in s ==> m <= x
  {
    LeastExists(s);
    var m :| m in s && forall x :: x in s ==> m <= x;
    m
  }

  /** The Attachments whose chosen key contains `filename`. */
  function Matching(meta: map<int, LinkRecord>, filename: string, source: string): (r: set<int>)
    ensures r <= meta.Keys
  {
    set id | id in meta && Occurs(filename, KeyValue(meta[id], source))
  }

  /**
   * `query_by_file`: the first Attachment, in ascending id order, whose chosen key
   * contains `filename`; `None` (the source's `false`) when there is none.
   */
  function QueryByFile(meta: map<int, LinkRecord>, filename: string, source: string): (r: Option<int>)
    ensures r.None? <==> forall id :: id in meta ==> !Occurs(filename, KeyValue(meta[id], source))
    ensures r.Some? ==> r.value in meta && Occurs(filename, KeyValue(meta[r.value], source))
    ensures r.Some? ==> forall id :: id in meta && Occurs(filename, KeyValue(meta[id], source)) ==> r.value <= id
  {
    var hits := Matching(meta, filename, source);
    if hits == {} then
      assert forall id :: id in meta ==> !Occurs(filename, KeyValue(meta[id], source)) by {
        forall id | id in meta ensures !Occurs(filename, KeyValue(meta[id], source)) {
          assert id !in hits;
        }
      }
      None
    else
      var m := LeastOf(hits);
      assert forall id :: id in meta && Occurs(filename, KeyValue(meta[id], source)) ==> m <= id by {
        forall id | id in meta && Occurs(filename, KeyValue(meta[id], source)) ensures m <= id {
          assert id in hits;
        }
      }
      Some(m)
  }

  /**
   * An empty file name matches every linked Attachment, so the lookup returns the
   * least linked id whenever there is any.
   */
  lemma {:induction false} QueryByEmptyNameFindsFirstLinked(meta: map<int, LinkRecord>, source: string)
    requires meta.Keys != {}
    ensures QueryByFile(meta, "", source).Some?
    ensures forall id :: id in meta ==> QueryByFile(meta, "", source).value <= id
  {
    var id := PickIn(meta.Keys);
    EmptyOccursEverywhere(KeyValue(meta[id], source));
    forall j | j in meta ensures Occurs("", KeyValue(meta[j], source)) {
      EmptyOccursEverywhere(KeyValue(meta[j], source));
    }
  }
}
