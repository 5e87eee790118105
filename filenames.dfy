/**
 * get_filename_from_url, taken from the path component of the URL. The basename follows
 * the Windows path rules the program runs under: both `/` and `\` separate directories.
 */
module Filenames {

  /** The name used when the path ends in a separator or is empty. */
  const DefaultName := "download_file"

  predicate IsSeparator(c: char)
  {
    c == '/' || c == '\\'
  }

  predicate NoSeparator(s: string)
  {
    forall i :: 0 <= i < |s| ==> !IsSeparator(s[i])
  }

  lemma DefaultNameIsPlain()
    ensures '?' !in DefaultName && NoSeparator(DefaultName)
  {
    var d := DefaultName;
    assert d == ['d', 'o', 'w', 'n', 'l', 'o', 'a', 'd', '_', 'f', 'i', 'l', 'e'];
  }

  /** The longest suffix of `path` that holds no separator. */
  function Basename(path: string): (name: string)
    ensures |name| <= |path| && name == path[|path| - |name|..]
    ensures NoSeparator(name)
    ensures |name| < |path| ==> IsSeparator(path[|path| - |name| - 1])
  {
    if path == [] || IsSeparator(path[|path| - 1]) then []
    else Basename(path[..|path| - 1]) + [path[|path| - 1]]
  }

  /** `name.split('?')[0]`: the part of `name` before its first `?`. */
  function BeforeQuery(name: string): (head: string)
    ensures '?' !in head
    ensures head <= name
    ensures head == name <==> '?' !in name
    ensures |head| < |name| ==> name[|head|] == '?'
  {
    if name == [] || name[0] == '?' then [] else [name[0]] + BeforeQuery(name[1..])
  }

  /**
   * Never contains `?` or a separator; the default name when the basename is empty; the
   * basename itself, never empty, when the path holds no `?` (as a parsed URL path never does).
   */
  function FilenameFromPath(path: string): (filename: string)
    ensures '?' !in filename
    ensures NoSeparator(filename)
    ensures Basename(path) == [] ==> filename == DefaultName
    ensures '?' !in path ==> filename != [] && (Basename(path) != [] ==> filename == Basename(path))
  {
    var name := Basename(path);
    var named := if name == [] then DefaultName else name;
    DefaultNameIsPlain();
    SuffixKeepsNoQuery(path, name);
    var filename := BeforeQuery(named);
    PrefixKeepsNoSeparator(named, filename);
    filename
  }

  lemma SuffixKeepsNoQuery(path: string, name: string)
    requires |name| <= |path| && name == path[|path| - |name|..]
    ensures '?' !in path ==> '?' !in name
  {
    if '?' in name {
      var k :| 0 <= k < |name| && name[k] == '?';
      assert path[|path| - |name| + k] == '?';
    }
  }

  lemma PrefixKeepsNoSeparator(name: string, head: string)
    requires NoSeparator(name) && head <= name
    ensures NoSeparator(head)
  {
    forall i | 0 <= i < |head| ensures !IsSeparator(head[i]) {
      assert head[i] == name[i];
    }
  }
}
