/**
 * The project file: a text of "key value" lines. `atlas <file>` starts a
 * new atlas; the lines after it set that atlas' output image, its integer
 * settings and its sprites. Blank lines and lines starting with '#' are
 * skipped. This module states the format as functions over the lines: how
 * the loader reads them, what the writer produces, and that reading back
 * what was written restores every atlas' settings and sprite list.
 */
module ProjectFile {
  import opened Text
  import opened Seqs
  import opened Numbers
  import opened Atlases

  /**
   * The lines std::getline reads from a text: it splits at '\n' and drops
   * the separators; a final '\n' ends the last line, it does not start an
   * empty one.
   */
  function SplitLines(data: string): (r: seq<string>)
    ensures forall i :: 0 <= i < |r| ==> '\n' !in r[i]
    ensures |data| == 0 <==> |r| == 0
    decreases |data|
  {
    if |data| == 0 then []
    else match FindFirst(data, '\n')
      case None => [data]
      case Some(k) => [data[..k]] + SplitLines(data[k + 1..])
  }

  /** The text a writer leaves when it prints every line followed by "\n". */
  function JoinLines(lines: seq<string>): string
  {
    if |lines| == 0 then [] else lines[0] + ['\n'] + JoinLines(lines[1..])
  }

  /** getline reads back exactly the lines that were written, when none holds a '\n'. */
  lemma {:induction false} SplitJoin(lines: seq<string>)
    requires forall i :: 0 <= i < |lines| ==> '\n' !in lines[i]
    ensures SplitLines(JoinLines(lines)) == lines
  {
    if |lines| > 0 {
      var l, rest := lines[0], JoinLines(lines[1..]);
      var data := l + ['\n'] + rest;
      assert data[..|l|] == l;
      FindFirstAt(data, '\n', |l|);
      assert data[|l| + 1..] == rest;
      SplitJoin(lines[1..]);
      assert lines == [l] + lines[1..];
    }
  }

  /** Writing two runs of lines one after the other writes their texts one after the other. */
  lemma {:induction false} JoinLinesAppend(a: seq<string>, b: seq<string>)
    ensures JoinLines(a + b) == JoinLines(a) + JoinLines(b)
    decreases |a|
  {
    if |a| > 0 {
      assert (a + b)[1..] == a[1..] + b;
      JoinLinesAppend(a[1..], b);
    } else {
      assert a + b == b;
    }
  }

  /**
   * What the file says about one atlas: its settings, and for each sprite
   * line the path handed to the sprite loader together with the padding in
   * force when the line was read.
   */
  datatype Entry = Entry(settings: AtlasSettings, sprites: seq<(string, int)>)

  /**
   * The outcome of reading the lines: the atlases read, a rejected line
   * (LoadProject returns false), or a std::stoi exception that nothing
   * catches.
   */
  datatype Parse = Parsed(entries: seq<Entry>) | Rejected | Threw

  /** The keys whose values are read by std::stoi. */
  const IntKeys: set<string> := {"padding_mode", "padding", "normalize", "y_up", "square", "image_format"}

  /** The integer keys are none of the other keys. */
  lemma IntKeyIsOther(key: string)
    requires key in IntKeys
    ensures key != "atlas" && key != "image" && key != "sprite"
  {
  }

  /** The integer setting `key` set to v; the three flags are true for any v other than 0. */
  function SetInt(s: AtlasSettings, key: string, v: int): (r: AtlasSettings)
    ensures key !in IntKeys ==> r == s
    ensures r.outputFile == s.outputFile && r.outputImage == s.outputImage
  {
    if key == "padding_mode" then s.(paddingMode := v)
    else if key == "padding" then s.(padding := v)
    else if key == "normalize" then s.(normalize := v != 0)
    else if key == "y_up" then s.(yUp := v != 0)
    else if key == "square" then s.(square := v != 0)
    else if key == "image_format" then s.(imageFormat := v)
    else s
  }

  /** Setting the same integer key twice keeps the second value. */
  lemma SetIntTwice(s: AtlasSettings, key: string, v1: int, v2: int)
    ensures SetInt(SetInt(s, key, v1), key, v2) == SetInt(s, key, v2)
  {
  }

  /** The last entry replaced by e; entries before it never change. */
  function WithLast(entries: seq<Entry>, e: Entry): (r: seq<Entry>)
    requires |entries| > 0
    ensures |r| == |entries| && r[..|entries| - 1] == entries[..|entries| - 1] && r[|r| - 1] == e
  {
    entries[|entries| - 1 := e]
  }

  /** Lines the loader skips: blank lines and comments. */
  predicate Skipped(line: string)
  {
    line == "" || line == "\n" || line == "\r\n" || line[0] == '#'
  }

  /**
   * The effect of a line "key value" with a key other than `atlas` on the
   * last entry: `image` sets its output image, `sprite` appends a sprite
   * path under base with the padding read so far, an integer key sets that
   * setting (None when std::stoi throws), and other keys change nothing.
   */
  function Update(last: Entry, key: string, value: string, base: string): (r: Option<Entry>)
    ensures r.None? <==> key in IntKeys && Stoi(value).None?
    ensures key !in IntKeys && key != "image" && key != "sprite" ==> r == Some(last)
  {
    if key == "image" then Some(last.(settings := last.settings.(outputImage := value)))
    else if key == "sprite" then Some(last.(sprites := last.sprites + [(base + value, last.settings.padding)]))
    else if key in IntKeys then
      match Stoi(value)
      case None => None
      case Some(v) => Some(last.(settings := SetInt(last.settings, key, v)))
    else Some(last)
  }

  /**
   * The effect of a line "key value": `atlas` starts a new entry with the
   * default settings; any other key needs an entry to apply to and changes
   * only the last one.
   */
  function Apply(entries: seq<Entry>, key: string, value: string, base: string): (r: Parse)
    ensures r.Parsed? ==> |entries| <= |r.entries| <= |entries| + 1
    ensures r.Parsed? && |entries| > 0 ==> r.entries[..|entries| - 1] == entries[..|entries| - 1]
    ensures r.Rejected? <==> key != "atlas" && |entries| == 0
  {
    if key == "atlas" then
      assert (entries + [Entry(DefaultSettings.(outputFile := value), [])])[..|entries|] == entries;
      Parsed(entries + [Entry(DefaultSettings.(outputFile := value), [])])
    else if |entries| == 0 then Rejected
    else match Update(entries[|entries| - 1], key, value, base)
      case None => Threw
      case Some(e) => Parsed(WithLast(entries, e))
  }

  /**
   * One pass of the loop of LoadProject: a skipped line changes nothing, a
   * line without a space makes the load fail, any other line is split at
   * its first space into key and value. `base` is the absolute directory
   * of the project file, which sprite paths are relative to.
   */
  function Step(entries: seq<Entry>, line: string, base: string): (r: Parse)
    ensures Skipped(line) ==> r == Parsed(entries)
    ensures !Skipped(line) && ' ' !in line ==> r == Rejected
  {
    if Skipped(line) then Parsed(entries)
    else match FindFirst(line, ' ')
      case None => Rejected
      case Some(sep) => Apply(entries, line[..sep], line[sep + 1..], base)
  }

  /** The remaining lines read one after the other, stopping at the first that fails. */
  function ParseFrom(entries: seq<Entry>, lines: seq<string>, base: string): (r: Parse)
    decreases |lines|
  {
    if |lines| == 0 then Parsed(entries)
    else match Step(entries, lines[0], base)
      case Parsed(next) => ParseFrom(next, lines[1..], base)
      case Rejected => Rejected
      case Threw => Threw
  }

  /** What LoadProject reads from the text of a project file. */
  function ParseProject(data: string, base: string): Parse
  {
    ParseFrom([], SplitLines(data), base)
  }

  /** The line "key value". */
  function Line(key: string, value: string): string
  {
    key + [' '] + value
  }

  /** Key names: non-empty, lower-case letters and '_' only. */
  predicate IsKeyName(key: string)
  {
    |key| > 0 && forall j :: 0 <= j < |key| ==> 'a' <= key[j] <= 'z' || key[j] == '_'
  }

  /** A "key value" line is not skipped and splits back into its key and value. */
  lemma KeyLine(entries: seq<Entry>, key: string, value: string, base: string)
    requires IsKeyName(key)
    ensures Step(entries, Line(key, value), base) == Apply(entries, key, value, base)
  {
    var line := Line(key, value);
    assert line[0] == key[0];
    assert line[..|key|] == key;
    FindFirstAt(line, ' ', |key|);
    assert line[|key| + 1..] == value;
  }

  /**
   * getline leaves the '\r' of a Windows line end in the line: a blank line
   * of a CRLF file is "\r", which is not skipped and holds no space, so the
   * load fails.
   */
  lemma CarriageReturnLineRejected(entries: seq<Entry>, base: string)
    ensures Step(entries, "\r", base) == Rejected
  {
    assert !Skipped("\r");
  }

  /** Before the first `atlas` line, any other key makes the loader fail. */
  lemma KeyBeforeAtlasRejected(key: string, value: string, base: string)
    requires IsKeyName(key) && key != "atlas"
    ensures Step([], Line(key, value), base) == Rejected
  {
    KeyLine([], key, value, base);
  }

  /** An `atlas` line adds an atlas with the default settings and the given output file. */
  lemma AtlasLineAdds(entries: seq<Entry>, value: string, base: string)
    ensures Step(entries, Line("atlas", value), base)
         == Parsed(entries + [Entry(DefaultSettings.(outputFile := value), [])])
  {
    KeyLine(entries, "atlas", value, base);
  }

  /** An `image` line sets the output image of the last atlas. */
  lemma ImageLineSets(entries: seq<Entry>, value: string, base: string)
    requires |entries| > 0
    ensures var last := entries[|entries| - 1];
      Step(entries, Line("image", value), base)
      == Parsed(WithLast(entries, last.(settings := last.settings.(outputImage := value))))
  {
    KeyLine(entries, "image", value, base);
  }

  /** A `sprite` line appends the path under base, with the padding read so far. */
  lemma SpriteLineAdds(entries: seq<Entry>, value: string, base: string)
    requires |entries| > 0
    ensures var last := entries[|entries| - 1];
      Step(entries, Line("sprite", value), base)
      == Parsed(WithLast(entries, last.(sprites := last.sprites + [(base + value, last.settings.padding)])))
  {
    KeyLine(entries, "sprite", value, base);
  }

  /** Keys the loader does not know are ignored once an atlas exists. */
  lemma UnknownKeyIgnored(entries: seq<Entry>, key: string, value: string, base: string)
    requires |entries| > 0 && IsKeyName(key)
    requires key !in IntKeys && key != "atlas" && key != "image" && key != "sprite"
    ensures Step(entries, Line(key, value), base) == Parsed(entries)
  {
    KeyLine(entries, key, value, base);
    assert WithLast(entries, entries[|entries| - 1]) == entries;
  }

  /** An integer key whose value std::stoi cannot read ends the program. */
  lemma BadIntegerThrows(entries: seq<Entry>, key: string, value: string, base: string)
    requires |entries| > 0 && key in IntKeys && IsKeyName(key) && Stoi(value).None?
    ensures Step(entries, Line(key, value), base) == Threw
  {
    IntKeyIsOther(key);
    KeyLine(entries, key, value, base);
  }

  /**
   * For an integer key the last occurrence wins: after a second line for
   * the same key, the first has no effect.
   */
  lemma LastIntWins(entries: seq<Entry>, key: string, v1: string, v2: string, base: string)
    requires |entries| > 0 && key in IntKeys && IsKeyName(key)
    requires Stoi(v1).Some? && Stoi(v2).Some?
    ensures var first := Step(entries, Line(key, v1), base);
      first.Parsed? && Step(first.entries, Line(key, v2), base) == Step(entries, Line(key, v2), base)
  {
    IntKeyIsOther(key);
    KeyLine(entries, key, v1, base);
    var first := Apply(entries, key, v1, base);
    KeyLine(first.entries, key, v2, base);
    KeyLine(entries, key, v2, base);
    var last := entries[|entries| - 1];
    SetIntTwice(last.settings, key, Stoi(v1).value, Stoi(v2).value);
  }

  /** Reading a line "key %d" sets that integer setting of the last atlas to the value written. */
  lemma IntLineSets(entries: seq<Entry>, key: string, v: int, base: string)
    requires |entries| > 0 && key in IntKeys && IsKeyName(key) && InInt32(v)
    ensures var last := entries[|entries| - 1];
      Step(entries, Line(key, Decimal(v)), base) == Parsed(WithLast(entries, last.(settings := SetInt(last.settings, key, v))))
  {
    IntKeyIsOther(key);
    KeyLine(entries, key, Decimal(v), base);
    StoiDecimal(v, []);
    assert Decimal(v) + [] == Decimal(v);
  }

  /** `%d` of a flag, as the writer prints it. */
  function FlagDecimal(b: bool): string
  {
    Decimal(if b then 1 else 0)
  }

  /** The eight settings lines SaveProject writes for an atlas, in order. */
  function SettingsLines(s: AtlasSettings): (r: seq<string>)
    ensures |r| == 8
  {
    [Line("atlas", s.outputFile), Line("image", s.outputImage), Line("image_format", Decimal(s.imageFormat)),
     Line("square", FlagDecimal(s.square)), Line("padding", Decimal(s.padding)),
     Line("padding_mode", Decimal(s.paddingMode)), Line("normalize", FlagDecimal(s.normalize)),
     Line("y_up", FlagDecimal(s.yUp))]
  }

  /** One `sprite` line per path. */
  function SpriteLines(paths: seq<string>): (r: seq<string>)
    ensures |r| == |paths|
    ensures forall i :: 0 <= i < |paths| ==> r[i] == Line("sprite", paths[i])
  {
    if |paths| == 0 then [] else [Line("sprite", paths[0])] + SpriteLines(paths[1..])
  }

  /** An atlas as SaveProject writes it: its settings and its sprites' paths relative to the project file. */
  datatype SavedAtlas = SavedAtlas(settings: AtlasSettings, spritePaths: seq<string>)

  /** The lines SaveProject writes for one atlas. */
  function AtlasLines(a: SavedAtlas): (r: seq<string>)
    ensures |r| == 8 + |a.spritePaths|
  {
    SettingsLines(a.settings) + SpriteLines(a.spritePaths)
  }

  /** The lines SaveProject writes, atlas after atlas. */
  function SavedLines(atlases: seq<SavedAtlas>): seq<string>
  {
    if |atlases| == 0 then [] else AtlasLines(atlases[0]) + SavedLines(atlases[1..])
  }

  /** One more atlas written after the others. */
  lemma {:induction false} SavedLinesSnoc(atlases: seq<SavedAtlas>, a: SavedAtlas)
    ensures SavedLines(atlases + [a]) == SavedLines(atlases) + AtlasLines(a)
    decreases |atlases|
  {
    if |atlases| == 0 {
      assert atlases + [a] == [a];
      assert [a][1..] == [];
      assert AtlasLines(a) + [] == AtlasLines(a);
    } else {
      assert (atlases + [a])[1..] == atlases[1..] + [a];
      SavedLinesSnoc(atlases[1..], a);
    }
  }

  /**
   * What can be written and read back: no '\n' in a written string, and
   * integer settings within the range of int.
   */
  predicate Savable(a: SavedAtlas)
  {
    '\n' !in a.settings.outputFile && '\n' !in a.settings.outputImage
    && InInt32(a.settings.imageFormat) && InInt32(a.settings.padding) && InInt32(a.settings.paddingMode)
    && forall i :: 0 <= i < |a.spritePaths| ==> '\n' !in a.spritePaths[i]
  }

  /** Each path under base, with the padding of its atlas. */
  function Located(paths: seq<string>, base: string, padding: int): (r: seq<(string, int)>)
    ensures |r| == |paths|
    ensures forall i :: 0 <= i < |paths| ==> r[i] == (base + paths[i], padding)
  {
    if |paths| == 0 then [] else [(base + paths[0], padding)] + Located(paths[1..], base, padding)
  }

  /** The entry the loader reads back for a saved atlas. */
  function ReadBack(a: SavedAtlas, base: string): Entry
  {
    Entry(a.settings, Located(a.spritePaths, base, a.settings.padding))
  }

  /** The first line read, when it succeeds, hands its entries to the rest. */
  lemma ParseCons(entries: seq<Entry>, line: string, rest: seq<string>, base: string, next: seq<Entry>)
    requires Step(entries, line, base) == Parsed(next)
    ensures ParseFrom(entries, [line] + rest, base) == ParseFrom(next, rest, base)
  {
    assert ([line] + rest)[0] == line;
    assert ([line] + rest)[1..] == rest;
  }

  /** Line k read, when it succeeds, hands its entries to the lines after it. */
  lemma ParseAt(entries: seq<Entry>, lines: seq<string>, k: nat, base: string, next: seq<Entry>)
    requires k < |lines| && Step(entries, lines[k], base) == Parsed(next)
    ensures ParseFrom(entries, lines[k..], base) == ParseFrom(next, lines[k + 1..], base)
  {
    assert lines[k..] == [lines[k]] + lines[k + 1..];
    ParseCons(entries, lines[k], lines[k + 1..], base, next);
  }

  /** A line that fails ends the reading with its failure. */
  lemma ParseStops(entries: seq<Entry>, lines: seq<string>, k: nat, base: string)
    requires k < |lines| && !Step(entries, lines[k], base).Parsed?
    ensures ParseFrom(entries, lines[k..], base) == Step(entries, lines[k], base)
  {
    assert lines[k..][0] == lines[k];
  }

  /** Reading a + b reads a, then b from the entries a leaves. */
  lemma {:induction false} ParseAppend(entries: seq<Entry>, a: seq<string>, b: seq<string>, base: string, next: seq<Entry>)
    requires ParseFrom(entries, a, base) == Parsed(next)
    ensures ParseFrom(entries, a + b, base) == ParseFrom(next, b, base)
    decreases |a|
  {
    if |a| == 0 {
      assert a + b == b;
    } else {
      var step := Step(entries, a[0], base);
      assert step.Parsed?;
      HeadTail(a, b);
      ParseCons(entries, a[0], a[1..], base, step.entries);
      ParseAppend(step.entries, a[1..], b, base, next);
      ParseCons(entries, a[0], a[1..] + b, base, step.entries);
    }
  }

  /** An integer line written by `%d` changes the settings of a last entry that has no sprites yet. */
  lemma SettingLine(prefix: seq<Entry>, t: AtlasSettings, key: string, v: int, base: string)
    requires key in IntKeys && InInt32(v)
    ensures Step(prefix + [Entry(t, [])], Line(key, Decimal(v)), base) == Parsed(prefix + [Entry(SetInt(t, key, v), [])])
  {
    IntKeyNames();
    IntLineSets(prefix + [Entry(t, [])], key, v, base);
    assert WithLast(prefix + [Entry(t, [])], Entry(SetInt(t, key, v), [])) == prefix + [Entry(SetInt(t, key, v), [])];
  }

  /** An `image` line changes the settings of a last entry that has no sprites yet. */
  lemma ImageLine(prefix: seq<Entry>, t: AtlasSettings, value: string, base: string)
    ensures Step(prefix + [Entry(t, [])], Line("image", value), base) == Parsed(prefix + [Entry(t.(outputImage := value), [])])
  {
    ImageLineSets(prefix + [Entry(t, [])], value, base);
    assert WithLast(prefix + [Entry(t, [])], Entry(t.(outputImage := value), [])) == prefix + [Entry(t.(outputImage := value), [])];
  }

  /** The integer keys the writer uses are key names. */
  lemma IntKeyNames()
    ensures forall key :: key in IntKeys ==> IsKeyName(key)
  {
  }

  /** The eight settings lines add an entry with the settings they were written from. */
  lemma SettingsLinesParse(entries: seq<Entry>, s: AtlasSettings, base: string)
    requires InInt32(s.imageFormat) && InInt32(s.padding) && InInt32(s.paddingMode)
    ensures ParseFrom(entries, SettingsLines(s), base) == Parsed(entries + [Entry(s, [])])
  {
    var l := SettingsLines(s);
    var t8: seq<string> := [];
    var t7 := [l[7]] + t8;
    var t6 := [l[6]] + t7;
    var t5 := [l[5]] + t6;
    var t4 := [l[4]] + t5;
    var t3 := [l[3]] + t4;
    var t2 := [l[2]] + t3;
    var t1 := [l[1]] + t2;
    assert l == [l[0]] + t1;
    var s0 := DefaultSettings.(outputFile := s.outputFile);
    var s1 := s0.(outputImage := s.outputImage);
    var s2 := SetInt(s1, "image_format", s.imageFormat);
    var s3 := SetInt(s2, "square", if s.square then 1 else 0);
    var s4 := SetInt(s3, "padding", s.padding);
    var s5 := SetInt(s4, "padding_mode", s.paddingMode);
    var s6 := SetInt(s5, "normalize", if s.normalize then 1 else 0);
    var s7 := SetInt(s6, "y_up", if s.yUp then 1 else 0);
    AtlasLineAdds(entries, s.outputFile, base);
    ParseCons(entries, l[0], t1, base, entries + [Entry(s0, [])]);
    ImageLine(entries, s0, s.outputImage, base);
    ParseCons(entries + [Entry(s0, [])], l[1], t2, base, entries + [Entry(s1, [])]);
    SettingLine(entries, s1, "image_format", s.imageFormat, base);
    ParseCons(entries + [Entry(s1, [])], l[2], t3, base, entries + [Entry(s2, [])]);
    SettingLine(entries, s2, "square", if s.square then 1 else 0, base);
    ParseCons(entries + [Entry(s2, [])], l[3], t4, base, entries + [Entry(s3, [])]);
    SettingLine(entries, s3, "padding", s.padding, base);
    ParseCons(entries + [Entry(s3, [])], l[4], t5, base, entries + [Entry(s4, [])]);
    SettingLine(entries, s4, "padding_mode", s.paddingMode, base);
    ParseCons(entries + [Entry(s4, [])], l[5], t6, base, entries + [Entry(s5, [])]);
    SettingLine(entries, s5, "normalize", if s.normalize then 1 else 0, base);
    ParseCons(entries + [Entry(s5, [])], l[6], t7, base, entries + [Entry(s6, [])]);
    SettingLine(entries, s6, "y_up", if s.yUp then 1 else 0, base);
    ParseCons(entries + [Entry(s6, [])], l[7], t8, base, entries + [Entry(s7, [])]);
    assert s7 == s;
  }

  /** A `sprite` line appends to the sprites of the last entry. */
  lemma SpriteLine(prefix: seq<Entry>, t: AtlasSettings, sprites: seq<(string, int)>, value: string, base: string)
    ensures Step(prefix + [Entry(t, sprites)], Line("sprite", value), base)
         == Parsed(prefix + [Entry(t, sprites + [(base + value, t.padding)])])
  {
    SpriteLineAdds(prefix + [Entry(t, sprites)], value, base);
    assert WithLast(prefix + [Entry(t, sprites)], Entry(t, sprites + [(base + value, t.padding)]))
        == prefix + [Entry(t, sprites + [(base + value, t.padding)])];
  }

  lemma SnocAssoc<T>(a: seq<T>, x: T, b: seq<T>)
    ensures a + [x] + b == a + ([x] + b)
  {
  }

  /** Each sprite line appends its path, under base, with the padding of the atlas. */
  lemma {:induction false} SpriteLinesParse(prefix: seq<Entry>, t: AtlasSettings, sprites: seq<(string, int)>,
                                            paths: seq<string>, base: string)
    ensures ParseFrom(prefix + [Entry(t, sprites)], SpriteLines(paths), base)
         == Parsed(prefix + [Entry(t, sprites + Located(paths, base, t.padding))])
    decreases |paths|
  {
    if |paths| == 0 {
      assert sprites + [] == sprites;
    } else {
      var more := sprites + [(base + paths[0], t.padding)];
      SpriteLine(prefix, t, sprites, paths[0], base);
      ParseCons(prefix + [Entry(t, sprites)], Line("sprite", paths[0]), SpriteLines(paths[1..]), base, prefix + [Entry(t, more)]);
      SpriteLinesParse(prefix, t, more, paths[1..], base);
      SnocAssoc(sprites, (base + paths[0], t.padding), Located(paths[1..], base, t.padding));
    }
  }

  /** Reading back the lines of one saved atlas adds its entry. */
  lemma AtlasLinesParse(entries: seq<Entry>, a: SavedAtlas, base: string)
    requires Savable(a)
    ensures ParseFrom(entries, AtlasLines(a), base) == Parsed(entries + [ReadBack(a, base)])
  {
    SettingsLinesParse(entries, a.settings, base);
    var e := entries + [Entry(a.settings, [])];
    ParseAppend(entries, SettingsLines(a.settings), SpriteLines(a.spritePaths), base, e);
    SpriteLinesParse(entries, a.settings, [], a.spritePaths, base);
    assert [] + Located(a.spritePaths, base, a.settings.padding) == Located(a.spritePaths, base, a.settings.padding);
  }

  /** The entries the loader reads back for saved atlases. */
  function ReadBackAll(atlases: seq<SavedAtlas>, base: string): (r: seq<Entry>)
    ensures |r| == |atlases|
    ensures forall i :: 0 <= i < |atlases| ==> r[i] == ReadBack(atlases[i], base)
  {
    if |atlases| == 0 then [] else [ReadBack(atlases[0], base)] + ReadBackAll(atlases[1..], base)
  }

  /** Reading back all saved atlases, after entries, adds their entries in order. */
  lemma {:induction false} SavedLinesParse(entries: seq<Entry>, atlases: seq<SavedAtlas>, base: string)
    requires forall i :: 0 <= i < |atlases| ==> Savable(atlases[i])
    ensures ParseFrom(entries, SavedLines(atlases), base) == Parsed(entries + ReadBackAll(atlases, base))
    decreases |atlases|
  {
    if |atlases| == 0 {
      assert entries + [] == entries;
    } else {
      var e := entries + [ReadBack(atlases[0], base)];
      AtlasLinesParse(entries, atlases[0], base);
      ParseAppend(entries, AtlasLines(atlases[0]), SavedLines(atlases[1..]), base, e);
      SavedLinesParse(e, atlases[1..], base);
      SnocAssoc(entries, ReadBack(atlases[0], base), ReadBackAll(atlases[1..], base));
    }
  }

  /** No line of ls holds a line break. */
  predicate SingleLines(ls: seq<string>)
  {
    forall i :: 0 <= i < |ls| ==> '\n' !in ls[i]
  }

  lemma SingleLinesAppend(a: seq<string>, b: seq<string>)
    requires SingleLines(a) && SingleLines(b)
    ensures SingleLines(a + b)
  {
    assert forall i :: |a| <= i < |a + b| ==> (a + b)[i] == b[i - |a|];
  }

  lemma LineSingle(key: string, value: string)
    requires '\n' !in key && '\n' !in value
    ensures '\n' !in Line(key, value)
  {
    var line := Line(key, value);
    assert forall j :: 0 <= j < |line| ==> line[j] == (if j < |key| then key[j] else if j == |key| then ' ' else value[j - |key| - 1]);
  }

  /** The lines written for a savable atlas hold no line break. */
  lemma AtlasLinesSingle(a: SavedAtlas)
    requires Savable(a)
    ensures SingleLines(AtlasLines(a))
  {
    var s := a.settings;
    DecimalHasNoNewline(s.imageFormat);
    DecimalHasNoNewline(s.padding);
    DecimalHasNoNewline(s.paddingMode);
    DecimalHasNoNewline(if s.square then 1 else 0);
    DecimalHasNoNewline(if s.normalize then 1 else 0);
    DecimalHasNoNewline(if s.yUp then 1 else 0);
    LineSingle("atlas", s.outputFile);
    LineSingle("image", s.outputImage);
    LineSingle("image_format", Decimal(s.imageFormat));
    LineSingle("square", FlagDecimal(s.square));
    LineSingle("padding", Decimal(s.padding));
    LineSingle("padding_mode", Decimal(s.paddingMode));
    LineSingle("normalize", FlagDecimal(s.normalize));
    LineSingle("y_up", FlagDecimal(s.yUp));
    forall i | 0 <= i < |a.spritePaths|
      ensures '\n' !in SpriteLines(a.spritePaths)[i]
    {
      LineSingle("sprite", a.spritePaths[i]);
    }
    SingleLinesAppend(SettingsLines(s), SpriteLines(a.spritePaths));
  }

  lemma {:induction false} SavedLinesSingle(atlases: seq<SavedAtlas>)
    requires forall i :: 0 <= i < |atlases| ==> Savable(atlases[i])
    ensures SingleLines(SavedLines(atlases))
    decreases |atlases|
  {
    if |atlases| > 0 {
      AtlasLinesSingle(atlases[0]);
      SavedLinesSingle(atlases[1..]);
      SingleLinesAppend(AtlasLines(atlases[0]), SavedLines(atlases[1..]));
    }
  }

  /**
   * Saving and loading round-trips: the text SaveProject writes reads back
   * as one entry per atlas, with the same settings and, for each sprite, its
   * written path under the project's directory, with the atlas' padding.
   */
  lemma SaveLoadRoundTrip(atlases: seq<SavedAtlas>, base: string)
    requires forall i :: 0 <= i < |atlases| ==> Savable(atlases[i])
    ensures ParseProject(JoinLines(SavedLines(atlases)), base) == Parsed(ReadBackAll(atlases, base))
  {
    SavedLinesSingle(atlases);
    SplitJoin(SavedLines(atlases));
    SavedLinesParse([], atlases, base);
    assert [] + ReadBackAll(atlases, base) == ReadBackAll(atlases, base);
  }
}
