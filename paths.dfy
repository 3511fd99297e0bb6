/**
 * The string helpers the synchroniser leans on, with the PHP meaning it relies on:
 * `empty()` on a string, `pathinfo(..., PATHINFO_BASENAME)`, `str_replace` with one
 * search string, and the substring test behind a meta query's `LIKE '%...%'`.
 */
module Paths {

  /** PHP's `empty()` applied to a string: true for "" and for "0". */
  predicate IsEmptyText(s: string)
  {
    s == "" || s == "0"
  }

  /** The base name of a path, taken as the part after its last '/'. */
  function Basename(p: string): (r: string)
    ensures '/' !in r
    ensures |r| <= |p| && p[|p| - |r|..] == r
    ensures |r| == |p| || p[|p| - |r| - 1] == '/'
  {
    if p == [] then []
    else if p[|p| - 1] == '/' then []
    else
      var q := p[..|p| - 1];
      var r := Basename(q) + [p[|p| - 1]];
      assert p == q + [p[|p| - 1]];
      r
  }

  /** A file name appended to a directory (empty, or ending in '/') is that path's base name. */
  lemma BasenameOfJoin(dir: string, name: string)
    requires '/' !in name
    requires dir == [] || dir[|dir| - 1] == '/'
    ensures Basename(dir + name) == name
  {
    assert (dir + name)[|dir + name| - |name|..] == name;
  }

  /** `needle` occurs somewhere in `hay`. */
  predicate Occurs(needle: string, hay: string)
  {
    exists i | 0 <= i <= |hay| - |needle| :: OccursAt(needle, hay, i)
  }

  /** `needle` occurs in `hay` starting at index `i`. */
  predicate OccursAt(needle: string, hay: string, i: int)
  {
    0 <= i <= |hay| - |needle| && hay[i..i + |needle|] == needle
  }

  /** The empty string occurs in every string (what a `LIKE '%%'` pattern matches). */
  lemma EmptyOccursEverywhere(hay: string)
    ensures Occurs("", hay)
  {
    assert OccursAt("", hay, 0);
  }

  /**
   * `str_replace($search, $replace, $subject)`: every non-overlapping occurrence of
   * `search`, scanning left to right, becomes `replace`; an empty search string leaves
   * the subject untouched.
   */
  function ReplaceAll(subject: string, search: string, replace: string): (r: string)
    ensures search == [] ==> r == subject
    ensures search == replace ==> r == subject
    ensures |search| == |replace| ==> |r| == |subject|
    decreases |subject|
  {
    if search == [] || |subject| < |search| then subject
    else if subject[..|search|] == search then
      var r := replace + ReplaceAll(subject[|search|..], search, replace);
      assert subject == subject[..|search|] + subject[|search|..];
      r
    else
      var r := [subject[0]] + ReplaceAll(subject[1..], search, replace);
      assert subject == [subject[0]] + subject[1..];
      r
  }

  /** A string in which `search` never occurs comes back from `ReplaceAll` unchanged. */
  lemma {:induction false} ReplaceAllWithoutOccurrence(subject: string, search: string, replace: string)
    requires search != []
    requires !Occurs(search, subject)
    ensures ReplaceAll(subject, search, replace) == subject
    decreases |subject|
  {
    if |subject| >= |search| {
      assert subject[0..|search|] == subject[..|search|];
      assert !OccursAt(search, subject, 0);
      NoOccurrenceInTail(subject, search);
      ReplaceAllWithoutOccurrence(subject[1..], search, replace);
      assert subject == [subject[0]] + subject[1..];
    }
  }

  /**
   * Renaming the last path component with `str_replace`: when the base name does not
   * also occur inside the directory part, only the base name is replaced.
   */
  lemma {:induction false} ReplaceBasename(dir: string, name: string, newName: string)
    requires name != [] && '/' !in name
    requires dir == [] || dir[|dir| - 1] == '/'
    requires !Occurs(name, dir)
    ensures ReplaceAll(dir + name, name, newName) == dir + newName
    decreases |dir|
  {
    if dir == [] {
      assert (dir + name)[..|name|] == name;
      assert (dir + name)[|name|..] == [];
    } else {
      var rest := dir[1..];
      NotAtStartOfJoin(dir, name);
      NoOccurrenceInTail(dir, name);
      ReplaceBasename(rest, name, newName);
      assert (dir + name)[1..] == rest + name;
      assert dir == [dir[0]] + rest;
    }
  }

  /** A '/'-free name does not start a non-empty directory (ending in '/') followed by it. */
  lemma NotAtStartOfJoin(dir: string, name: string)
    requires dir != [] && dir[|dir| - 1] == '/'
    requires name != [] && '/' !in name
    requires !Occurs(name, dir)
    ensures |dir + name| >= |name| && (dir + name)[..|name|] != name
  {
    var s := dir + name;
    if |name| <= |dir| {
      assert s[..|name|] == dir[0..0 + |name|];
      assert !OccursAt(name, dir, 0);
    } else {
      assert s[..|name|][|dir| - 1] == '/';
    }
  }

  /** No occurrence in a string means no occurrence in its tail. */
  lemma NoOccurrenceInTail(hay: string, needle: string)
    requires hay != []
    requires !Occurs(needle, hay)
    ensures !Occurs(needle, hay[1..])
  {
    var rest := hay[1..];
    if Occurs(needle, rest) {
      var i :| 0 <= i <= |rest| - |needle| && OccursAt(needle, rest, i);
      assert hay[i + 1..i + 1 + |needle|] == rest[i..i + |needle|];
      assert OccursAt(needle, hay, i + 1);
      assert false;
    }
  }

  /** The base name of "/name/name" is `name`. */
  lemma DirectoryNamedLikeFileBasename(name: string)
    requires '/' !in name
    ensures Basename("/" + name + "/" + name) == name
  {
    var dir := "/" + name + "/";
    assert "/" + name + "/" + name == dir + name;
    BasenameOfJoin(dir, name);
  }

  /**
   * When a directory on the path has the same name as the file, `str_replace` renames
   * that directory as well: "/2021/2021" with base name "2021" renamed to "x" becomes "/x/x".
   */
  lemma {:induction false} DirectoryNamedLikeFileIsRenamed(name: string, newName: string)
    requires name != [] && '/' !in name
    ensures ReplaceAll("/" + name + "/" + name, name, newName) == "/" + newName + "/" + newName
  {
    var tail := "/" + name;
    ReplaceSlashName(name, [], newName);
    assert tail + [] == tail;
    var t := ReplaceAll(tail, name, newName);
    assert t == "/" + newName + [];
    ReplaceSlashName(name, tail, newName);
    assert "/" + name + "/" + name == "/" + name + tail;
    assert "/" + newName + "/" + newName == "/" + newName + t;
  }

  /** `str_replace` on a '/' followed by the search string renames that component and goes on with the rest. */
  lemma ReplaceSlashName(name: string, rest: string, newName: string)
    requires name != [] && '/' !in name
    ensures ReplaceAll("/" + name + rest, name, newName) == "/" + newName + ReplaceAll(rest, name, newName)
  {
    var path := "/" + name + rest;
    ReplaceAtMismatch(path, name, newName);
    assert path[1..] == name + rest;
    ReplaceAtMatch(name + rest, name, newName);
    assert (name + rest)[..|name|] == name && (name + rest)[|name|..] == rest;
  }

  /** `str_replace` at a position where the search string starts. */
  lemma ReplaceAtMatch(subject: string, search: string, replace: string)
    requires search != [] && |subject| >= |search| && subject[..|search|] == search
    ensures ReplaceAll(subject, search, replace) == replace + ReplaceAll(subject[|search|..], search, replace)
  {
  }

  /** `str_replace` at a position starting with '/' when the search string has none. */
  lemma ReplaceAtMismatch(subject: string, search: string, replace: string)
    requires search != [] && '/' !in search && subject != [] && subject[0] == '/'
    ensures ReplaceAll(subject, search, replace) == [subject[0]] + ReplaceAll(subject[1..], search, replace)
  {
    if |subject| >= |search| {
      assert subject[..|search|][0] == '/';
      assert search[0] in search;
    }
  }
}
