/**
 * The file-name helpers of the project loader and the export dialog:
 * replacing an extension, testing for one, and taking the directory part of
 * a path. Paths are plain character sequences; '/' and '\' both separate
 * directories.
 */
module Paths {
  import opened Text

  /** `filename` ends with `ext`. */
  function HasExtension(filename: string, ext: string): (r: bool)
    ensures r ==> |ext| <= |filename|
    ensures r ==> filename == filename[..|filename| - |ext|] + ext
  {
    |filename| >= |ext| && filename[|filename| - |ext|..] == ext
  }

  /** Whatever precedes it, a name that ends with ext has extension ext. */
  lemma HasExtensionOfSuffix(stem: string, ext: string)
    ensures HasExtension(stem + ext, ext)
  {
    assert (stem + ext)[|stem|..] == ext;
  }

  /** A file name shorter than the extension never has it. */
  lemma ShorterHasNoExtension(filename: string, ext: string)
    requires |filename| < |ext|
    ensures !HasExtension(filename, ext)
  {
  }

  /**
   * The file name with everything after its first '.' replaced by ext. A
   * name without '.' or whose first '.' is its first character is left as
   * it is.
   */
  function RenameWithExt(filename: string, ext: string): (r: string)
    ensures !('.' in filename && filename[0] != '.') ==> r == filename
    ensures '.' in filename && filename[0] != '.' ==>
      var stem := |r| - |ext| - 1;
      HasExtension(r, ext) && 1 <= stem < |filename| && r[stem] == '.' && '.' !in r[..stem]
      && r[..stem + 1] == filename[..stem + 1]
  {
    match FindFirst(filename, '.')
    case Some(n) =>
      if n != 0 then
        var r := filename[..n + 1] + ext;
        HasExtensionOfSuffix(filename[..n + 1], ext);
        assert r[..n] == filename[..n];
        r
      else filename
    case None => filename
  }

  /**
   * Renaming twice is renaming once with the second extension: the stem
   * up to the first '.' survives the first renaming unchanged.
   */
  lemma RenameTwice(filename: string, ext1: string, ext2: string)
    ensures RenameWithExt(RenameWithExt(filename, ext1), ext2) == RenameWithExt(filename, ext2)
  {
    if '.' in filename && filename[0] != '.' {
      var r := RenameWithExt(filename, ext1);
      var n := FindFirst(filename, '.').value;
      assert r == filename[..n + 1] + ext1;
      assert r[n] == '.' && r[..n] == filename[..n];
      assert FindFirst(r, '.') == Some(n);
      assert r[..n + 1] == filename[..n + 1];
    }
  }

  /** Renaming to the same extension again changes nothing. */
  lemma RenameIdempotent(filename: string, ext: string)
    ensures RenameWithExt(RenameWithExt(filename, ext), ext) == RenameWithExt(filename, ext)
  {
    RenameTwice(filename, ext, ext);
  }

  /**
   * The directory part of a path, through its last separator; a path
   * without separator lies in "./".
   */
  function BasePath(filename: string): (r: string)
    ensures |r| > 0 && r[|r| - 1] in Separators
    ensures NoSeparator(filename) ==> r == "./"
    ensures !NoSeparator(filename) ==> r <= filename && NoSeparator(filename[|r|..])
  {
    match FindLastOf(filename, Separators)
    case Some(sep) =>
      var r := filename[..sep + 1];
      assert forall j :: 0 <= j < |filename| - |r| ==> filename[|r|..][j] == filename[|r| + j];
      r
    case None => "./"
  }

  /** The directory part of a directory part is itself. */
  lemma BasePathIdempotent(filename: string)
    ensures BasePath(BasePath(filename)) == BasePath(filename)
  {
    var r := BasePath(filename);
    assert FindLastOf(r, Separators) == Some(|r| - 1);
  }

  /** A file name without separator, put in a directory, has that directory as its directory part. */
  lemma BasePathOfJoin(dir: string, name: string)
    requires |dir| > 0 && dir[|dir| - 1] in Separators && NoSeparator(name)
    ensures BasePath(dir + name) == dir
  {
    var f := dir + name;
    assert f[|dir| - 1] in Separators;
    assert f[..|dir|] == dir;
  }
}
