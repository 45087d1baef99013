/**
 * LoadProject and SaveProject: reading a project file into a list of new
 * atlases, and writing the atlases of a project back as text.
 *
 * The file system is a parameter: `contents` is what fopen and fread give
 * (None when the file cannot be opened), `absolute` stands for
 * std::filesystem::absolute, `load` for LoadSprite, and `relative` for the
 * path of a sprite relative to the project file. The text a save writes is
 * returned instead of written.
 */
module Loader {
  import opened Text
  import opened Seqs
  import opened Frames
  import opened Image
  import opened Paths
  import opened Numbers
  import opened Placement
  import opened Atlases
  import opened ProjectFile

  /** How LoadProject ends: true, false, or an exception from std::stoi that nothing catches. */
  datatype LoadStatus = Loaded | Failed | Aborted

  /**
   * The sprites a list of sprite lines yields: those LoadSprite could read,
   * each with the padding in force when its line was read.
   */
  function Appended(items: seq<(string, int)>, load: string -> Option<Sprite>): (r: seq<(Sprite, int)>)
    ensures |r| <= |items|
  {
    if |items| == 0 then []
    else
      var last := items[|items| - 1];
      Appended(items[..|items| - 1], load) + (match load(last.0) case Some(s) => [(s, last.1)] case None => [])
  }

  /** The sprites of an appended list. */
  function SpritesOf(a: seq<(Sprite, int)>): (r: seq<Sprite>)
    ensures |r| == |a|
  {
    if |a| == 0 then [] else SpritesOf(a[..|a| - 1]) + [a[|a| - 1].0]
  }

  /** The candidates AppendSprite made for them: sprite i padded as when it was appended, with sorting order i. */
  function CandidatesOf(a: seq<(Sprite, int)>): (r: seq<RenderSprite>)
    ensures |r| == |a|
  {
    if |a| == 0 then [] else CandidatesOf(a[..|a| - 1]) + [Candidate(a[|a| - 1].0, a[|a| - 1].1, |a| - 1)]
  }

  /** Appending an item appends its sprite and its candidate. */
  lemma OfSnoc(a: seq<(Sprite, int)>, s: Sprite, p: int)
    ensures SpritesOf(a + [(s, p)]) == SpritesOf(a) + [s]
    ensures CandidatesOf(a + [(s, p)]) == CandidatesOf(a) + [Candidate(s, p, |a|)]
  {
    assert (a + [(s, p)])[..|a|] == a;
  }

  /** The groups of an atlas whose n sprites were all appended to group 0. */
  function DefaultGroups(n: nat): (r: seq<Animation>)
    ensures FramesPartition(r, n)
  {
    if n == 0 then []
    else
      var r := [Animation(DefaultGroupName, 0.0, Range(n))];
      assert r[..0] == [] && AllFrames(r[..0]) == [];
      assert AllFrames(r) == Range(n);
      r
  }

  /** Appending sprite n to group 0 of the default groups gives the default groups of n + 1 sprites. */
  lemma DefaultGroupsGrow(n: nat)
    ensures WithFrame(DefaultGroups(n), 0, n) == DefaultGroups(n + 1)
  {
    RangeSnoc(n);
  }

  /** A read sprite extends the appended list by one item. */
  lemma AppendedSnoc(items: seq<(string, int)>, item: (string, int), load: string -> Option<Sprite>)
    ensures Appended(items + [item], load) == Appended(items, load)
      + (match load(item.0) case Some(s) => [(s, item.1)] case None => [])
  {
    assert (items + [item])[..|items|] == items;
  }

  /** The settings fields of a hold s. */
  predicate HasSettings(a: Atlas, s: AtlasSettings)
    reads a`outputFile, a`outputImage, a`imageFormat, a`squareTexture, a`padding, a`paddingMode, a`normalize, a`yUp
  {
    a.outputFile == s.outputFile && a.outputImage == s.outputImage && a.imageFormat == s.imageFormat
    && a.squareTexture == s.square && a.padding == s.padding && a.paddingMode == s.paddingMode
    && a.normalize == s.normalize && a.yUp == s.yUp
  }

  /**
   * Atlas a holds settings s and the appended sprites `added`: their
   * candidates, all in group 0, and no texture yet.
   */
  predicate Holds(a: Atlas, s: AtlasSettings, added: seq<(Sprite, int)>)
    reads a
  {
    HasSettings(a, s) && a.sprites == SpritesOf(added) && a.renderSprites == CandidatesOf(added)
    && a.animations == DefaultGroups(|added|) && a.texture.None? && a.width == 0 && a.height == 0
  }

  /**
   * Atlas a as the loader builds it from entry e, before rendering: the
   * entry's settings and the sprites that could be read.
   */
  predicate Building(a: Atlas, e: Entry, load: string -> Option<Sprite>)
    reads a
  {
    Holds(a, e.settings, Appended(e.sprites, load))
  }

  /**
   * Atlas a rendered after holding settings s and the appended sprites
   * `added`: it keeps its settings, sprites and groups; its candidates are
   * the ones it held, sorted by area and, when the retry chain packs them,
   * placed in a texture of that chain's size and drawn into it in order
   * (RenderedFrom). Without
   * sprites it still has no texture.
   */
  ghost predicate Rendered(a: Atlas, s: AtlasSettings, added: seq<(Sprite, int)>)
    reads a
  {
    HasSettings(a, s) && a.sprites == SpritesOf(added)
    && multiset(Keys(a.renderSprites)) == multiset(Keys(CandidatesOf(added)))
    && RenderedFrom(a, CandidatesOf(added))
    && (|added| == 0 ==> a.texture.None? && a.width == 0 && a.height == 0)
    && a.animations == DefaultGroups(|added|) && a.Valid()
  }

  /** Atlas a as LoadProject leaves it for entry e. */
  ghost predicate LoadedAs(a: Atlas, e: Entry, load: string -> Option<Sprite>)
    reads a
  {
    Rendered(a, e.settings, Appended(e.sprites, load))
  }

  /** The atlases are pairwise different objects. */
  predicate Distinct(atlases: seq<Atlas>)
  {
    forall j, k :: 0 <= j < k < |atlases| ==> atlases[j] != atlases[k]
  }

  /** ParseInt for the six integer keys: the setting `key` of a becomes v. */
  method SetSetting(a: Atlas, key: string, v: int)
    requires key in IntKeys
    modifies a`paddingMode, a`padding, a`normalize, a`yUp, a`squareTexture, a`imageFormat
    ensures a.Settings() == SetInt(old(a.Settings()), key, v)
  {
    if key == "padding_mode" {
      a.paddingMode := v;
    } else if key == "padding" {
      a.padding := v;
    } else if key == "normalize" {
      a.normalize := v != 0;
    } else if key == "y_up" {
      a.yUp := v != 0;
    } else if key == "square" {
      a.squareTexture := v != 0;
    } else {
      a.imageFormat := v;
    }
  }

  /** An `image` line on an atlas being built. */
  method SetImage(a: Atlas, ghost e: Entry, value: string, load: string -> Option<Sprite>)
    requires Building(a, e, load)
    modifies a`outputImage
    ensures Building(a, e.(settings := e.settings.(outputImage := value)), load)
  {
    a.outputImage := value;
  }

  /** AppendSprite(sprite, 0) on an atlas being built, once LoadSprite has read the sprite. */
  method AddLoaded(a: Atlas, ghost s: AtlasSettings, ghost added: seq<(Sprite, int)>, sprite: Sprite)
    requires Holds(a, s, added)
    modifies a`animations, a`sprites, a`renderSprites
    ensures Holds(a, s, added + [(sprite, s.padding)])
  {
    var ok := a.AppendSpriteFile(Some(sprite), 0);
    OfSnoc(added, sprite, s.padding);
    DefaultGroupsGrow(|added|);
  }

  /** A `sprite` line on an atlas being built: the sprite is appended to group 0 when it can be read. */
  method AddSprite(a: Atlas, ghost s: AtlasSettings, ghost added: seq<(Sprite, int)>, loaded: Option<Sprite>)
    requires Holds(a, s, added)
    modifies a`animations, a`sprites, a`renderSprites
    ensures Holds(a, s, added + match loaded case Some(x) => [(x, s.padding)] case None => [])
  {
    if loaded.Some? {
      AddLoaded(a, s, added, loaded.value);
    } else {
      var ok := a.AppendSpriteFile(None, 0);
      assert added + [] == added;
    }
  }

  /** An integer line on an atlas being built, once std::stoi has read v. */
  method SetInteger(a: Atlas, ghost e: Entry, key: string, v: int, load: string -> Option<Sprite>)
    requires Building(a, e, load) && key in IntKeys
    modifies a`paddingMode, a`padding, a`normalize, a`yUp, a`squareTexture, a`imageFormat
    ensures Building(a, e.(settings := SetInt(e.settings, key, v)), load)
  {
    SetSetting(a, key, v);
  }

  /**
   * A line "key value" with a key other than `atlas`, applied to the last
   * atlas a, built from entry e: the atlas follows Update, and `threw` tells
   * that std::stoi threw.
   */
  method UpdateAtlas(a: Atlas, ghost e: Entry, key: string, value: string, base: string,
                     load: string -> Option<Sprite>) returns (threw: bool)
    requires Building(a, e, load)
    modifies a
    ensures threw <==> Update(e, key, value, base).None?
    ensures !threw ==> Building(a, Update(e, key, value, base).value, load)
  {
    if key == "image" {
      SetImage(a, e, value, load);
    } else if key == "sprite" {
      AppendedSnoc(e.sprites, (base + value, e.settings.padding), load);
      AddSprite(a, e.settings, Appended(e.sprites, load), load(base + value));
    } else if key in IntKeys {
      var v := Stoi(value);
      if v.None? {
        return true;
      }
      SetInteger(a, e, key, v.value, load);
    }
    return false;
  }

  /** Each of the atlases is built from the entry at its index. */
  predicate BuiltAll(atlases: seq<Atlas>, es: seq<Entry>, load: string -> Option<Sprite>)
    reads set a | a in atlases
  {
    |atlases| == |es| && forall j :: 0 <= j < |atlases| ==> Building(atlases[j], es[j], load)
  }

  /**
   * The atlases `after` continue the atlases built so far and follow the
   * entries es: the old atlases come first, all are different objects, and
   * each is built from its entry.
   */
  predicate Continues(atlases: seq<Atlas>, after: seq<Atlas>, es: seq<Entry>, load: string -> Option<Sprite>)
    reads set a | a in after
  {
    |atlases| <= |after| && after[..|atlases|] == atlases && Distinct(after) && BuiltAll(after, es, load)
  }

  /** The atlases built before the last one, and the last one. */
  lemma BuiltSplit(atlases: seq<Atlas>, es: seq<Entry>, load: string -> Option<Sprite>)
    requires BuiltAll(atlases, es, load) && |atlases| > 0
    ensures BuiltAll(atlases[..|atlases| - 1], es[..|es| - 1], load)
    ensures Building(atlases[|atlases| - 1], es[|es| - 1], load)
  {
  }

  /** One more atlas built from one more entry. */
  lemma BuiltSnoc(atlases: seq<Atlas>, a: Atlas, es: seq<Entry>, e: Entry, load: string -> Option<Sprite>)
    requires BuiltAll(atlases, es, load) && Building(a, e, load)
    ensures BuiltAll(atlases + [a], es + [e], load)
  {
  }

  /** The atlases, with the last one rebuilt from entry e, continue themselves and follow WithLast(es, e). */
  lemma RebuiltLast(atlases: seq<Atlas>, es: seq<Entry>, e: Entry, load: string -> Option<Sprite>)
    requires |atlases| == |es| > 0 && Distinct(atlases)
    requires BuiltAll(atlases[..|atlases| - 1], es[..|es| - 1], load)
    requires Building(atlases[|atlases| - 1], e, load)
    ensures Continues(atlases, atlases, WithLast(es, e), load)
  {
    var n := |atlases| - 1;
    BuiltSnoc(atlases[..n], atlases[n], es[..n], e, load);
    assert atlases[..n] + [atlases[n]] == atlases;
    assert es[..n] + [e] == WithLast(es, e);
    assert atlases[..|atlases|] == atlases;
  }

  /** An `atlas` line: a new atlas with the default settings and the value as its output file. */
  method AddAtlasLine(atlases: seq<Atlas>, ghost entries: seq<Entry>, value: string, base: string,
                      load: string -> Option<Sprite>) returns (after: seq<Atlas>)
    requires Distinct(atlases) && BuiltAll(atlases, entries, load)
    ensures var r := Apply(entries, "atlas", value, base);
      r.Parsed? && Continues(atlases, after, r.entries, load)
      && forall x :: x in after ==> x in atlases || fresh(x)
  {
    var a := new Atlas();
    a.outputFile := value;
    assert Appended([], load) == [];
    BuiltSnoc(atlases, a, entries, Entry(DefaultSettings.(outputFile := value), []), load);
    after := atlases + [a];
    assert after[..|atlases|] == atlases;
  }

  /** A line with a key other than `atlas`, applied to the last of the atlases built so far. */
  method UpdateLast(atlases: seq<Atlas>, ghost entries: seq<Entry>, key: string, value: string, base: string,
                    load: string -> Option<Sprite>) returns (stop: Option<LoadStatus>)
    requires key != "atlas" && |atlases| > 0
    requires Distinct(atlases) && BuiltAll(atlases, entries, load)
    modifies atlases[|atlases| - 1]
    ensures var r := Apply(entries, key, value, base);
      (stop == None <==> r.Parsed?) && (stop == Some(Aborted) <==> r.Threw?) && !r.Rejected?
      && (r.Parsed? ==> Continues(atlases, atlases, r.entries, load))
  {
    var last := |atlases| - 1;
    ghost var front := atlases[..last];
    ghost var u := Update(entries[last], key, value, base);
    BuiltSplit(atlases, entries, load);
    assert forall k :: 0 <= k < last ==> front[k] != atlases[last];
    var threw := UpdateAtlas(atlases[last], entries[last], key, value, base, load);
    assert Apply(entries, key, value, base) == if u.None? then Threw else Parsed(WithLast(entries, u.value));
    if threw {
      return Some(Aborted);
    }
    RebuiltLast(atlases, entries, u.value, load);
    return None;
  }

  /**
   * A line "key value" applied to the atlases built so far: the atlases
   * follow Apply. `stop` is None when the loop goes on, Failed when
   * LoadProject returns false and Aborted when std::stoi throws.
   */
  method ApplyLine(atlases: seq<Atlas>, ghost entries: seq<Entry>, key: string, value: string, base: string,
                   load: string -> Option<Sprite>) returns (stop: Option<LoadStatus>, after: seq<Atlas>)
    requires Distinct(atlases) && BuiltAll(atlases, entries, load)
    modifies set a | a in atlases
    ensures var r := Apply(entries, key, value, base);
      (stop == None <==> r.Parsed?) && (stop == Some(Failed) <==> r.Rejected?) && (stop == Some(Aborted) <==> r.Threw?)
      && (r.Parsed? ==> Continues(atlases, after, r.entries, load))
    ensures forall x :: x in after ==> x in atlases || fresh(x)
  {
    after := atlases;
    if key == "atlas" {
      after := AddAtlasLine(atlases, entries, value, base, load);
      return None, after;
    }
    if |atlases| == 0 {
      return Some(Failed), after;
    }
    stop := UpdateLast(atlases, entries, key, value, base, load);
  }

  /**
   * One pass of the loop of LoadProject over the atlases built so far: the
   * atlases follow Step.
   */
  method ReadLine(atlases: seq<Atlas>, ghost entries: seq<Entry>, line: string, base: string,
                  load: string -> Option<Sprite>) returns (stop: Option<LoadStatus>, after: seq<Atlas>)
    requires Distinct(atlases) && BuiltAll(atlases, entries, load)
    modifies set a | a in atlases
    ensures var r := Step(entries, line, base);
      (stop == None <==> r.Parsed?) && (stop == Some(Failed) <==> r.Rejected?) && (stop == Some(Aborted) <==> r.Threw?)
      && (r.Parsed? ==> Continues(atlases, after, r.entries, load))
    ensures forall x :: x in after ==> x in atlases || fresh(x)
  {
    if Skipped(line) {
      assert atlases[..|atlases|] == atlases;
      return None, atlases;
    }
    var sep := FindFirst(line, ' ');
    if sep.None? {
      return Some(Failed), atlases;
    }
    var key, value := line[..sep.value], line[sep.value + 1..];
    assert Step(entries, line, base) == Apply(entries, key, value, base);
    stop, after := ApplyLine(atlases, entries, key, value, base, load);
  }

  /**
   * What LoadProject relies on from Render: the texture stays valid, the
   * candidates are only reordered and placed, the atlas is what rendering
   * them gives, and without candidates the texture is left as it was.
   */
  method RenderKeepingKeys(a: Atlas)
    requires a.TextureValid()
    modifies a`renderSprites, a`width, a`height, a`texture, a`texturesCreated, a`drawn
    ensures a.TextureValid() && multiset(Keys(a.renderSprites)) == multiset(Keys(old(a.renderSprites)))
    ensures RenderedFrom(a, old(a.renderSprites))
    ensures |old(a.renderSprites)| == 0 ==>
      a.texture == old(a.texture) && a.width == old(a.width) && a.height == old(a.height)
  {
    var defined := a.Render();
    RenderedFromOutcome(a, old(a.renderSprites), defined);
  }

  /**
   * Render on candidates that an earlier Render of `cands` left in area
   * order: the atlas is again what rendering `cands` gives.
   */
  method RenderSortedAgain(a: Atlas, ghost cands: seq<RenderSprite>)
    requires a.TextureValid()
    requires |cands| > 0 ==> Keys(a.renderSprites) == Keys(SortByArea(cands)) && SortedByArea(a.renderSprites)
    modifies a`renderSprites, a`width, a`height, a`texture, a`texturesCreated, a`drawn
    ensures a.TextureValid() && multiset(Keys(a.renderSprites)) == multiset(Keys(old(a.renderSprites)))
    ensures RenderedFrom(a, cands)
    ensures |old(a.renderSprites)| == 0 ==>
      a.texture == old(a.texture) && a.width == old(a.width) && a.height == old(a.height)
  {
    ghost var before := a.renderSprites;
    RenderKeepingKeys(a);
    if |cands| > 0 {
      RenderedFromSorted(a, before, cands);
    }
  }

  /** Render on an atlas just built: it keeps its sprites and settings, and its candidates are packed and drawn. */
  method RenderBuilt(a: Atlas, ghost s: AtlasSettings, ghost added: seq<(Sprite, int)>)
    requires Holds(a, s, added)
    modifies a`renderSprites, a`width, a`height, a`texture, a`texturesCreated, a`drawn
    ensures Rendered(a, s, added)
  {
    RenderKeepingKeys(a);
    assert RenderedFrom(a, CandidatesOf(added));
    assert HasSettings(a, s);
    assert a.sprites == SpritesOf(added);
    assert a.animations == DefaultGroups(|added|);
    assert a.Valid();
  }

  /**
   * Render on an atlas already rendered after loading: it is again what
   * rendering the loaded candidates gives.
   */
  method RenderLoaded(a: Atlas, ghost s: AtlasSettings, ghost added: seq<(Sprite, int)>)
    requires Rendered(a, s, added)
    modifies a`renderSprites, a`width, a`height, a`texture, a`texturesCreated, a`drawn
    ensures Rendered(a, s, added)
  {
    RenderSortedAgain(a, CandidatesOf(added));
  }

  /** Render again on the first of the loaded atlases: all of them are still as LoadProject left them. */
  method RenderFirst(atlases: seq<Atlas>, ghost entries: seq<Entry>, load: string -> Option<Sprite>)
    requires |atlases| == |entries| > 0 && Distinct(atlases)
    requires forall j :: 0 <= j < |atlases| ==> LoadedAs(atlases[j], entries[j], load)
    modifies atlases[0]
    ensures forall j :: 0 <= j < |atlases| ==> LoadedAs(atlases[j], entries[j], load)
    ensures forall a :: a in atlases ==> a.TextureValid()
  {
    RenderLoaded(atlases[0], entries[0].settings, Appended(entries[0].sprites, load));
    forall j | 0 < j < |atlases|
      ensures LoadedAs(atlases[j], entries[j], load)
    {
      assert atlases[j] != atlases[0];
    }
  }

  /** Render on each atlas, as LoadProject does once every line is read. */
  method RenderAll(atlases: seq<Atlas>, ghost entries: seq<Entry>, load: string -> Option<Sprite>)
    requires Distinct(atlases) && BuiltAll(atlases, entries, load)
    modifies set a | a in atlases
    ensures forall j :: 0 <= j < |atlases| ==> LoadedAs(atlases[j], entries[j], load)
  {
    var j := 0;
    while j < |atlases|
      invariant 0 <= j <= |atlases|
      invariant forall k :: 0 <= k < j ==> LoadedAs(atlases[k], entries[k], load)
      invariant forall k :: j <= k < |atlases| ==> Building(atlases[k], entries[k], load)
    {
      RenderBuilt(atlases[j], entries[j].settings, Appended(entries[j].sprites, load));
      forall k | 0 <= k < |atlases| && k != j
        ensures atlases[k] != atlases[j]
      {
      }
      j := j + 1;
    }
  }

  /**
   * The loop of LoadProject over the lines of the file: the atlases built
   * follow ParseFrom, and the loop stops at the first line that fails.
   */
  method ReadLines(lines: seq<string>, base: string, load: string -> Option<Sprite>)
    returns (stop: Option<LoadStatus>, atlases: seq<Atlas>, ghost entries: seq<Entry>)
    ensures var p := ParseFrom([], lines, base);
      (stop == None <==> p.Parsed?) && (stop == Some(Failed) <==> p.Rejected?) && (stop == Some(Aborted) <==> p.Threw?)
    ensures stop.None? ==>
      entries == ParseFrom([], lines, base).entries && Distinct(atlases) && BuiltAll(atlases, entries, load)
      && forall x :: x in atlases ==> fresh(x)
  {
    entries := [];
    atlases := [];
    var i := 0;
    assert lines[0..] == lines;
    while i < |lines|
      invariant 0 <= i <= |lines|
      invariant ParseFrom([], lines, base) == ParseFrom(entries, lines[i..], base)
      invariant Distinct(atlases) && BuiltAll(atlases, entries, load)
      invariant forall x :: x in atlases ==> fresh(x)
    {
      var after;
      stop, after := ReadLine(atlases, entries, lines[i], base, load);
      if stop.Some? {
        ParseStops(entries, lines, i, base);
        return stop, after, entries;
      }
      ghost var next := Step(entries, lines[i], base).entries;
      ParseAt(entries, lines, i, base, next);
      entries, atlases := next, after;
      i := i + 1;
    }
    stop := None;
  }

  /**
   * LoadProject. When the file cannot be opened the list is left as it
   * was. Otherwise the result follows what ParseProject reads: a rejected
   * line gives false, a value std::stoi cannot read aborts, and a complete
   * read gives one new, rendered atlas per entry.
   */
  method LoadProject(filename: string, contents: Option<string>, absolute: string -> string,
                     load: string -> Option<Sprite>, project: seq<Atlas>)
    returns (status: LoadStatus, atlases: seq<Atlas>)
    ensures contents.None? ==> status == Failed && atlases == project
    ensures contents.Some? ==>
      var p := ParseProject(contents.value, absolute(BasePath(filename)));
      (status == Loaded <==> p.Parsed?) && (status == Aborted <==> p.Threw?)
      && (status == Loaded ==>
            |atlases| == |p.entries| && Distinct(atlases)
            && (forall x :: x in atlases ==> fresh(x))
            && forall j :: 0 <= j < |atlases| ==> LoadedAs(atlases[j], p.entries[j], load))
  {
    if contents.None? {
      return Failed, project;
    }
    var base := absolute(BasePath(filename));
    var stop;
    ghost var entries;
    stop, atlases, entries := ReadLines(SplitLines(contents.value), base, load);
    if stop.Some? {
      return stop.value, atlases;
    }
    RenderAll(atlases, entries, load);
    return Loaded, atlases;
  }
}
