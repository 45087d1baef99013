/**
 * SaveProject: writing the atlases of a project as the line format
 * LoadProject reads.
 *
 * Whether fopen succeeds is the parameter `canOpen`, `relative` stands for
 * std::filesystem::relative, and the text fprintf would write is returned
 * instead of written.
 */
module Saver {
  import opened Text
  import opened Image
  import opened Paths
  import opened Atlases
  import opened Numbers
  import opened ProjectFile

  /**
   * The path each sprite is saved under: its file relative to the
   * directory of the project file, as `%s` prints it.
   */
  function SpritePaths(sprites: seq<Sprite>, dir: string, relative: (string, string) -> string): (r: seq<string>)
    ensures |r| == |sprites|
    ensures forall i :: 0 <= i < |sprites| ==> r[i] == CString(relative(sprites[i].filename, dir))
  {
    if |sprites| == 0 then []
    else SpritePaths(sprites[..|sprites| - 1], dir, relative) + [CString(relative(sprites[|sprites| - 1].filename, dir))]
  }

  /** The settings as SaveProject prints them: both names through `%s`. */
  function PrintedSettings(s: AtlasSettings): AtlasSettings
  {
    s.(outputFile := CString(s.outputFile), outputImage := CString(s.outputImage))
  }

  /** What SaveProject writes of atlas a: its settings and its sprites' paths. */
  function SavedOf(a: Atlas, filename: string, relative: (string, string) -> string): SavedAtlas
    reads a
  {
    SavedAtlas(PrintedSettings(a.Settings()), SpritePaths(a.sprites, BasePath(filename), relative))
  }

  /**
   * Names and paths without '\0' are written whole, so the saved atlas
   * holds exactly the atlas' settings and its sprites' relative paths.
   */
  lemma SavedWhole(a: Atlas, filename: string, relative: (string, string) -> string)
    requires '\0' !in a.outputFile && '\0' !in a.outputImage
    requires forall i :: 0 <= i < |a.sprites| ==> '\0' !in relative(a.sprites[i].filename, BasePath(filename))
    ensures SavedOf(a, filename, relative).settings == a.Settings()
    ensures var paths := SavedOf(a, filename, relative).spritePaths;
      |paths| == |a.sprites|
      && forall i :: 0 <= i < |paths| ==> paths[i] == relative(a.sprites[i].filename, BasePath(filename))
  {
  }

  /**
   * An atlas whose names and relative paths hold no '\n' and whose integer
   * settings fit in int is saved as something LoadProject reads back: a
   * '\0' only cuts a string short.
   */
  lemma SavedIsSavable(a: Atlas, filename: string, relative: (string, string) -> string)
    requires '\n' !in a.outputFile && '\n' !in a.outputImage
    requires InInt32(a.imageFormat) && InInt32(a.padding) && InInt32(a.paddingMode)
    requires forall i :: 0 <= i < |a.sprites| ==> '\n' !in relative(a.sprites[i].filename, BasePath(filename))
    ensures Savable(SavedOf(a, filename, relative))
  {
    var saved := SavedOf(a, filename, relative);
    CStringPrefix(a.outputFile);
    CStringPrefix(a.outputImage);
    forall i | 0 <= i < |saved.spritePaths|
      ensures '\n' !in saved.spritePaths[i]
    {
      var full := relative(a.sprites[i].filename, BasePath(filename));
      CStringPrefix(full);
      assert saved.spritePaths[i] == full[..|saved.spritePaths[i]|];
    }
  }

  /** What SaveProject writes of each atlas, in order. */
  function Snapshot(atlases: seq<Atlas>, filename: string, relative: (string, string) -> string): (r: seq<SavedAtlas>)
    reads set a | a in atlases
    ensures |r| == |atlases|
    ensures forall k :: 0 <= k < |atlases| ==> r[k] == SavedOf(atlases[k], filename, relative)
  {
    if |atlases| == 0 then []
    else Snapshot(atlases[..|atlases| - 1], filename, relative) + [SavedOf(atlases[|atlases| - 1], filename, relative)]
  }

  /** One line is written with its newline. */
  lemma JoinOne(line: string)
    ensures JoinLines([line]) == line + ['\n']
  {
    assert [line][1..] == [];
  }

  /** Writing the line of sprite j after the lines before it. */
  lemma SpriteTextSnoc(settings: seq<string>, paths: seq<string>, j: nat)
    requires j < |paths|
    ensures JoinLines(settings + SpriteLines(paths[..j + 1]))
      == JoinLines(settings + SpriteLines(paths[..j])) + Line("sprite", paths[j]) + ['\n']
  {
    var line := Line("sprite", paths[j]);
    assert SpriteLines(paths[..j + 1]) == SpriteLines(paths[..j]) + [line];
    assert settings + SpriteLines(paths[..j + 1]) == (settings + SpriteLines(paths[..j])) + [line];
    JoinLinesAppend(settings + SpriteLines(paths[..j]), [line]);
    JoinOne(line);
  }

  /** The fprintf calls for one atlas: its eight settings lines, then one line per sprite. */
  method WriteAtlas(a: Atlas, filename: string, relative: (string, string) -> string) returns (text: string)
    ensures text == JoinLines(AtlasLines(SavedOf(a, filename, relative)))
  {
    var settings := SettingsLines(PrintedSettings(a.Settings()));
    var dir := BasePath(filename);
    ghost var paths := SpritePaths(a.sprites, dir, relative);
    text := JoinLines(settings);
    var j := 0;
    assert paths[..0] == [] && settings + SpriteLines([]) == settings;
    while j < |a.sprites|
      invariant 0 <= j <= |a.sprites|
      invariant text == JoinLines(settings + SpriteLines(paths[..j]))
    {
      SpriteTextSnoc(settings, paths, j);
      text := text + Line("sprite", CString(relative(a.sprites[j].filename, dir))) + ['\n'];
      j := j + 1;
    }
    assert paths[..j] == paths;
  }

  /** The snapshot of the first i atlases is the first i saved atlases. */
  lemma SnapshotPrefix(atlases: seq<Atlas>, i: nat, filename: string, relative: (string, string) -> string)
    requires i <= |atlases|
    ensures Snapshot(atlases, filename, relative)[..i] == Snapshot(atlases[..i], filename, relative)
    ensures i < |atlases| ==> Snapshot(atlases, filename, relative)[i] == SavedOf(atlases[i], filename, relative)
  {
    var whole, part := Snapshot(atlases, filename, relative), Snapshot(atlases[..i], filename, relative);
    assert forall k :: 0 <= k < i ==> whole[k] == part[k];
  }

  /** The text for the first i + 1 saved atlases is the text for the first i, then that of atlas i. */
  lemma SavedTextSnoc(snap: seq<SavedAtlas>, i: nat)
    requires i < |snap|
    ensures JoinLines(SavedLines(snap[..i + 1])) == JoinLines(SavedLines(snap[..i])) + JoinLines(AtlasLines(snap[i]))
  {
    assert snap[..i + 1] == snap[..i] + [snap[i]];
    SavedLinesSnoc(snap[..i], snap[i]);
    JoinLinesAppend(SavedLines(snap[..i]), AtlasLines(snap[i]));
  }

  /**
   * SaveProject. When the file cannot be opened nothing is written;
   * otherwise the eight settings lines and one line per sprite are written
   * for each atlas. Either way it returns false.
   */
  method SaveProject(filename: string, atlases: seq<Atlas>, canOpen: bool, relative: (string, string) -> string)
    returns (ok: bool, written: Option<string>)
    ensures !ok
    ensures canOpen <==> written.Some?
    ensures written.Some? ==> written.value == JoinLines(SavedLines(Snapshot(atlases, filename, relative)))
  {
    if !canOpen {
      return false, None;
    }
    ghost var snap := Snapshot(atlases, filename, relative);
    var text := "";
    var i := 0;
    assert snap[..0] == [];
    while i < |atlases|
      invariant 0 <= i <= |atlases|
      invariant text == JoinLines(SavedLines(snap[..i]))
    {
      SnapshotPrefix(atlases, i, filename, relative);
      var atlasText := WriteAtlas(atlases[i], filename, relative);
      SavedTextSnoc(snap, i);
      text := text + atlasText;
      i := i + 1;
    }
    assert snap[..i] == snap;
    return false, Some(text);
  }
}
