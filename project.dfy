/**
 * The project: the list of atlases being edited, the exporters they can
 * use, the project file's name and the atlas the editor shows. The atlases
 * are objects the project owns; loading replaces them by new ones.
 */
module Projects {
  import opened Text
  import opened Frames
  import opened Paths
  import opened Image
  import opened Exporters
  import opened Atlases
  import opened ProjectFile
  import opened Loader
  import opened Saver
  import opened Retry

  /** The name of a project that was not loaded from a file. */
  const UntitledProject: string := "untitled.spritepack"

  /** The exporters every project starts with, in registration order. */
  const DefaultExporters: seq<(string, ExporterFn)> :=
    [("atlas", AtlasFileExporter), ("txt", AtlasFileExporter), ("json", JsonExporter)]

  /** The side of the texture of an empty atlas. */
  const EmptyTextureSide: int := 128

  /**
   * A new atlas as MakeEmptyAtlas makes it: default settings, no sprites,
   * the default group alone and a cleared 128 x 128 texture.
   */
  predicate EmptyAtlas(a: Atlas)
    reads a
  {
    a.Settings() == DefaultSettings && a.sprites == [] && a.renderSprites == []
    && a.animations == [Animation(DefaultGroupName, 0.0, [])]
    && a.width == EmptyTextureSide && a.height == EmptyTextureSide && a.texture.Some? && a.drawn == []
    && a.exporter == 0 && a.Valid()
  }

  /**
   * What Export promised for atlas a run with exporter fn: `ok` tells that
   * the exporter wrote `out`, which needs a sprite and an output file that
   * opens; a sprite list within the packing bounds exports exactly when the
   * file opens; the file written is the atlas' output file, in the format
   * of fn.
   */
  predicate ExportedAs(a: Atlas, fn: ExporterFn, canOpen: string -> bool, ok: bool, out: Option<Written>)
    reads a`sprites, a`padding, a`outputFile
  {
    ok == out.Some? && (ok ==> canOpen(a.outputFile) && |a.sprites| > 0)
    && (|a.sprites| > 0 && Bounded(Candidates(a.sprites, a.padding)) ==> ok == canOpen(a.outputFile))
    && (out.Some? ==> out.value.path == CString(a.outputFile) && (out.value.AtlasFile? <==> fn == AtlasFileExporter))
  }

  /** Export on one atlas, with what ExportAllAtlases relies on. */
  method ExportAtlas(a: Atlas, fn: ExporterFn, canOpen: string -> bool) returns (ok: bool, out: Option<Written>)
    requires a.TextureValid()
    modifies a`renderSprites, a`width, a`height, a`texture, a`texturesCreated, a`drawn
    ensures a.TextureValid() && ExportedAs(a, fn, canOpen, ok, out)
  {
    var quads;
    ghost var packed;
    ok, quads, out, packed := a.Export(fn, canOpen(a.outputFile));
  }

  class Project {
    var filename: string
    var exporters: seq<(string, ExporterFn)>
    var atlases: seq<Atlas>
    var currentAtlas: nat

    /** The atlases are different objects, each with a texture that matches its size. */
    predicate Valid()
      reads this, set a | a in atlases
    {
      Distinct(atlases) && forall a :: a in atlases ==> a.TextureValid()
    }

    /** GetAtlas can be called: there is an atlas, and currentAtlas is one of them. */
    predicate HasCurrent()
      reads this
    {
      currentAtlas < |atlases|
    }

    /** The constructor registers the three built-in exporters and holds no atlas yet. */
    constructor()
      ensures exporters == DefaultExporters
      ensures filename == [] && atlases == [] && currentAtlas == 0
      ensures Valid()
    {
      filename := [];
      atlases := [];
      currentAtlas := 0;
      exporters := [];
      new;
      RegisterExportFunc("atlas", AtlasFileExporter);
      RegisterExportFunc("txt", AtlasFileExporter);
      RegisterExportFunc("json", JsonExporter);
    }

    /** Adds an exporter under a name; its index is the old number of exporters. */
    method RegisterExportFunc(name: string, fn: ExporterFn)
      modifies this`exporters
      ensures exporters == old(exporters) + [(name, fn)]
    {
      exporters := exporters + [(name, fn)];
    }

    /** Appends an atlas to the project. */
    method AddAtlas(a: Atlas)
      modifies this`atlases
      ensures atlases == old(atlases) + [a]
    {
      atlases := atlases + [a];
    }

    /** MakeEmptyAtlas: a new atlas with a 128 x 128 texture and the default group. */
    static method MakeEmptyAtlas() returns (a: Atlas)
      ensures fresh(a) && EmptyAtlas(a)
    {
      a := new Atlas();
      a.CreateTexture(EmptyTextureSide, EmptyTextureSide);
      a.animations := a.animations + [Animation(DefaultGroupName, 0.0, [])];
      assert AllFrames(a.animations) == [] by {
        assert a.animations[..0] == [];
      }
    }

    /** LoadEmptyProject: an untitled project holding one empty atlas, which is the current one. */
    method LoadEmptyProject()
      modifies this`filename, this`atlases, this`currentAtlas
      ensures filename == UntitledProject && |atlases| == 1 && currentAtlas == 0
      ensures fresh(atlases[0]) && EmptyAtlas(atlases[0])
      ensures Valid() && HasCurrent()
    {
      filename := UntitledProject;
      atlases := [];
      var a := MakeEmptyAtlas();
      AddAtlas(a);
      currentAtlas := 0;
    }

    /**
     * Load: LoadProject on `file` (its text is `contents`, None when fopen
     * fails). A complete read with at least one atlas takes the new atlases
     * and the file name, makes atlas 0 current and renders it again, and
     * gives Loaded. Otherwise the result is Failed and the project is the
     * empty project, except when std::stoi throws: then the exception
     * leaves Load (Aborted) with the atlases read so far.
     */
    method Load(file: string, contents: Option<string>, absolute: string -> string,
                load: string -> Option<Sprite>) returns (r: LoadStatus)
      modifies this`filename, this`atlases, this`currentAtlas
      ensures contents.None? ==> r == Failed
      ensures contents.Some? ==>
        var p := ParseProject(contents.value, absolute(BasePath(file)));
        (r == Aborted <==> p.Threw?) && (r == Loaded <==> p.Parsed? && |p.entries| > 0)
        && (r == Loaded ==>
              filename == file && currentAtlas == 0 && |atlases| == |p.entries| && Distinct(atlases)
              && (forall x :: x in atlases ==> fresh(x))
              && forall j :: 0 <= j < |atlases| ==> LoadedAs(atlases[j], p.entries[j], load))
      ensures r == Failed ==>
        filename == UntitledProject && |atlases| == 1 && currentAtlas == 0 && fresh(atlases[0]) && EmptyAtlas(atlases[0])
      ensures r != Aborted ==> Valid() && HasCurrent()
    {
      var status, loaded := LoadProject(file, contents, absolute, load, atlases);
      if status == Aborted {
        atlases := loaded;
        return Aborted;
      }
      if status == Failed || |loaded| == 0 {
        LoadEmptyProject();
        return Failed;
      }
      ghost var p := ParseProject(contents.value, absolute(BasePath(file)));
      assert loaded[0] in loaded;
      RenderFirst(loaded, p.entries, load);
      atlases := loaded;
      filename := file;
      currentAtlas := 0;
      return Loaded;
    }

    /**
     * ExportAllAtlases: every atlas is exported with the exporter it names,
     * even after one has failed, and the result is true exactly when every
     * export succeeded. `canOpen` tells which output files fopen can open.
     */
    method ExportAllAtlases(canOpen: string -> bool) returns (ok: bool, results: seq<bool>, outs: seq<Option<Written>>)
      requires Valid()
      requires forall a :: a in atlases ==> a.exporter < |exporters|
      modifies (set a | a in atlases)`renderSprites, (set a | a in atlases)`width, (set a | a in atlases)`height
      modifies (set a | a in atlases)`texture, (set a | a in atlases)`texturesCreated, (set a | a in atlases)`drawn
      ensures Valid()
      ensures forall a :: a in atlases ==>
        a.exporter == old(a.exporter) && a.sprites == old(a.sprites) && a.padding == old(a.padding)
        && a.outputFile == old(a.outputFile)
      ensures |results| == |atlases| && |outs| == |atlases|
      ensures ok <==> forall j :: 0 <= j < |results| ==> results[j]
      ensures forall j :: 0 <= j < |atlases| ==>
        ExportedAs(atlases[j], exporters[atlases[j].exporter].1, canOpen, results[j], outs[j])
    {
      var error := false;
      results, outs := [], [];
      var i := 0;
      while i < |atlases|
        invariant 0 <= i <= |atlases| && |results| == i && |outs| == i
        invariant Valid()
        invariant error <==> exists j :: 0 <= j < i && !results[j]
        invariant forall j :: 0 <= j < i ==>
          ExportedAs(atlases[j], exporters[atlases[j].exporter].1, canOpen, results[j], outs[j])
      {
        var a := atlases[i];
        assert a in atlases;
        var exported, out := ExportAtlas(a, exporters[a.exporter].1, canOpen);
        error := !exported || error;
        ghost var before := results;
        results, outs := results + [exported], outs + [out];
        assert results[i] == exported && forall j :: 0 <= j < i ==> results[j] == before[j];
        i := i + 1;
      }
      ok := !error;
    }

    /** Save: SaveProject on the project's file name and atlases. */
    method Save(canOpen: bool, relative: (string, string) -> string) returns (ok: bool, written: Option<string>)
      ensures !ok && (canOpen <==> written.Some?)
      ensures written.Some? ==> written.value == JoinLines(SavedLines(Snapshot(atlases, filename, relative)))
    {
      ok, written := SaveProject(filename, atlases, canOpen, relative);
    }
  }
}
