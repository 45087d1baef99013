/**
 * The two atlas description writers. Each one opens the atlas' output file
 * (whether that succeeds is a parameter here), writes one record naming the
 * texture image and one record per quad, pairing the i-th quad with the i-th
 * sprite's short name, and reports whether the file could be opened.
 *
 * The written text is modelled by its structure: the plain format as a list
 * of lines, JSON as the list of pieces `fprintf` emits in turn. Every string
 * goes through `c_str()`, so names and the file's path are their CString.
 */
module Exporters {
  import opened Text
  import opened Image

  /** An SDL_FRect handed to an exporter. */
  datatype Quad = Quad(x: real, y: real, w: real, h: real)

  /** A number as printed: `%d` of a value cast to int, or `%f`. */
  datatype Number = Int(i: int) | Float(f: real)

  /** A line of the plain atlas file: `i <image>` or `s <name> x y w h`. */
  datatype AtlasLine =
    | ImageLine(image: string)
    | SpriteLine(name: string, x: Number, y: Number, w: Number, h: Number)

  /** The pieces ExportJson writes, in order. */
  datatype JsonPiece =
    | Header(texture: string)                                       // {"texture":"..","sprites":[
    | Comma                                                         // ,
    | SpriteObject(name: string, x: real, y: real, w: real, h: real) // {"name":..,"x":..,..}
    | Footer                                                        // ]}

  /** What an exporter leaves in the file it opened. */
  datatype Written =
    | AtlasFile(path: string, lines: seq<AtlasLine>)
    | JsonFile(path: string, pieces: seq<JsonPiece>)

  /** The exporter functions a project can register. */
  datatype ExporterFn = AtlasFileExporter | JsonExporter

  /** C++'s float-to-int conversion, which truncates toward zero. */
  function TruncateToInt(r: real): (i: int)
    ensures r >= 0.0 ==> i >= 0 && i as real <= r < i as real + 1.0
    ensures r < 0.0 ==> i <= 0 && i as real - 1.0 < r <= i as real
  {
    if r >= 0.0 then r.Floor else -((-r).Floor)
  }

  lemma TruncateKeepsIntegers(k: int)
    ensures TruncateToInt(k as real) == k
  {
  }

  /** A coordinate as the plain exporter prints it. */
  function Printed(v: real, normalize: bool): Number
  {
    if normalize then Float(v) else Int(TruncateToInt(v))
  }

  /** The line the plain exporter writes for a sprite and its quad. */
  function SpriteLineOf(sprite: Sprite, q: Quad, normalize: bool): AtlasLine
  {
    SpriteLine(CString(sprite.shortName), Printed(q.x, normalize), Printed(q.y, normalize),
               Printed(q.w, normalize), Printed(q.h, normalize))
  }

  /** The sprite object ExportJson writes for a sprite and its quad. */
  function SpriteObjectOf(sprite: Sprite, q: Quad): JsonPiece
  {
    SpriteObject(CString(sprite.shortName), q.x, q.y, q.w, q.h)
  }

  /**
   * The plain file describes the quads: the image line, then line i + 1
   * pairs sprites[i] with quads[i].
   */
  predicate AtlasFileContent(lines: seq<AtlasLine>, outputImage: string, normalize: bool,
                             sprites: seq<Sprite>, quads: seq<Quad>)
    requires |quads| <= |sprites|
  {
    |lines| == |quads| + 1 && lines[0] == ImageLine(CString(outputImage))
    && forall i :: 0 <= i < |quads| ==> lines[i + 1] == SpriteLineOf(sprites[i], quads[i], normalize)
  }

  /**
   * The JSON pieces describe the quads: the header, object i at position
   * 2i + 1 with a comma before it unless it is the first, and the footer.
   */
  predicate JsonContent(p: seq<JsonPiece>, outputImage: string, sprites: seq<Sprite>, quads: seq<Quad>)
    requires |quads| <= |sprites|
  {
    |p| == (if |quads| == 0 then 2 else 2 * |quads| + 1)
    && p[0] == Header(CString(outputImage)) && p[|p| - 1] == Footer
    && (forall i :: 0 <= i < |quads| ==> p[2 * i + 1] == SpriteObjectOf(sprites[i], quads[i]))
    && (forall i :: 1 <= i < |quads| ==> p[2 * i] == Comma)
  }

  /**
   * ExportAtlasFile: the image line, then exactly one sprite line per quad,
   * pairing sprites[i] with quads[i] in index order.
   */
  method ExportAtlasFile(outputFile: string, outputImage: string, normalize: bool,
                         sprites: seq<Sprite>, quads: seq<Quad>, canOpen: bool)
    returns (ok: bool, out: Option<Written>)
    requires |quads| <= |sprites|
    ensures ok == canOpen
    ensures !canOpen ==> out == None
    ensures canOpen ==> out.Some? && out.value.AtlasFile? && out.value.path == CString(outputFile)
    ensures canOpen ==> AtlasFileContent(out.value.lines, outputImage, normalize, sprites, quads)
  {
    if !canOpen {
      return false, None;
    }
    var lines := [ImageLine(CString(outputImage))];
    var i := 0;
    while i < |quads|
      invariant 0 <= i <= |quads|
      invariant |lines| == i + 1 && lines[0] == ImageLine(CString(outputImage))
      invariant forall j :: 0 <= j < i ==> lines[j + 1] == SpriteLineOf(sprites[j], quads[j], normalize)
    {
      var sprite, quad := sprites[i], quads[i];
      var line;
      if normalize {
        line := SpriteLine(CString(sprite.shortName), Float(quad.x), Float(quad.y), Float(quad.w), Float(quad.h));
      } else {
        line := SpriteLine(CString(sprite.shortName), Int(TruncateToInt(quad.x)), Int(TruncateToInt(quad.y)),
                           Int(TruncateToInt(quad.w)), Int(TruncateToInt(quad.h)));
      }
      lines := lines + [line];
      i := i + 1;
    }
    return true, Some(AtlasFile(CString(outputFile), lines));
  }

  /**
   * ExportJson: the header, the sprite objects in index order with a comma
   * before every object but the first, and the closing piece. Object i sits
   * at position 2i + 1 and the comma before it at 2i.
   */
  method ExportJson(outputFile: string, outputImage: string,
                    sprites: seq<Sprite>, quads: seq<Quad>, canOpen: bool)
    returns (ok: bool, out: Option<Written>)
    requires |quads| <= |sprites|
    ensures ok == canOpen
    ensures !canOpen ==> out == None
    ensures canOpen ==> out.Some? && out.value.JsonFile? && out.value.path == CString(outputFile)
    ensures canOpen ==> JsonContent(out.value.pieces, outputImage, sprites, quads)
  {
    if !canOpen {
      return false, None;
    }
    var image := CString(outputImage);
    var pieces := [Header(image)];
    var i := 0;
    while i < |quads|
      invariant 0 <= i <= |quads|
      invariant |pieces| == (if i == 0 then 1 else 2 * i) && pieces[0] == Header(image)
      invariant forall j :: 0 <= j < i ==> pieces[2 * j + 1] == SpriteObjectOf(sprites[j], quads[j])
      invariant forall j :: 1 <= j < i ==> pieces[2 * j] == Comma
    {
      if i > 0 {
        pieces := pieces + [Comma];
      }
      var sprite, quad := sprites[i], quads[i];
      pieces := pieces + [SpriteObject(CString(sprite.shortName), quad.x, quad.y, quad.w, quad.h)];
      i := i + 1;
    }
    pieces := pieces + [Footer];
    return true, Some(JsonFile(CString(outputFile), pieces));
  }

  /** Well-formed JSON piece lists: header, objects separated by commas, footer. */
  predicate SeparatedObjects(p: seq<JsonPiece>)
  {
    |p| >= 2 && p[0].Header? && p[|p| - 1] == Footer
    && (forall k :: 0 < k < |p| - 1 ==> (p[k] == Comma <==> !p[k].SpriteObject?))
    && (forall k :: 0 < k < |p| - 1 && p[k] == Comma ==> p[k - 1].SpriteObject? && p[k + 1].SpriteObject?)
    && (|p| > 2 ==> p[1].SpriteObject? && p[|p| - 2].SpriteObject?)
  }

  /** Between header and footer, odd positions hold objects and even ones commas. */
  lemma JsonPositions(p: seq<JsonPiece>, texture: string, sprites: seq<Sprite>, quads: seq<Quad>)
    requires |quads| <= |sprites|
    requires JsonContent(p, texture, sprites, quads)
    ensures forall k :: 0 < k < |p| - 1 ==> (p[k].SpriteObject? <==> k % 2 == 1) && (p[k] == Comma <==> k % 2 == 0)
  {
    forall k | 0 < k < |p| - 1
      ensures p[k].SpriteObject? <==> k % 2 == 1
      ensures p[k] == Comma <==> k % 2 == 0
    {
      if k % 2 == 1 {
        assert p[2 * (k / 2) + 1] == SpriteObjectOf(sprites[k / 2], quads[k / 2]);
      } else {
        assert p[2 * (k / 2)] == Comma;
      }
    }
  }

  /**
   * The layout ExportJson promises is well-formed: no comma leads, trails
   * or doubles, and every position between header and footer holds an
   * object or a comma.
   */
  lemma {:induction false} JsonLayoutIsSeparated(p: seq<JsonPiece>, texture: string, sprites: seq<Sprite>, quads: seq<Quad>)
    requires |quads| <= |sprites|
    requires JsonContent(p, texture, sprites, quads)
    ensures SeparatedObjects(p)
    ensures forall k :: 0 < k < |p| - 1 ==> (p[k].SpriteObject? <==> k % 2 == 1)
  {
    JsonPositions(p, texture, sprites, quads);
    if |p| > 2 {
      assert |p| == 2 * |quads| + 1;
      assert p[1].SpriteObject? && p[2 * |quads| - 1].SpriteObject?;
    }
  }

  /** Calls the registered exporter function `fn`. */
  method RunExporter(fn: ExporterFn, outputFile: string, outputImage: string, normalize: bool,
                     sprites: seq<Sprite>, quads: seq<Quad>, canOpen: bool)
    returns (ok: bool, out: Option<Written>)
    requires |quads| <= |sprites|
    ensures ok == canOpen && (out.Some? <==> canOpen)
    ensures out.Some? ==> out.value.path == CString(outputFile)
    ensures out.Some? ==> (out.value.AtlasFile? <==> fn == AtlasFileExporter)
    ensures out.Some? && out.value.AtlasFile? ==>
      AtlasFileContent(out.value.lines, outputImage, normalize, sprites, quads)
    ensures out.Some? && out.value.JsonFile? ==> JsonContent(out.value.pieces, outputImage, sprites, quads)
  {
    match fn
    case AtlasFileExporter =>
      ok, out := ExportAtlasFile(outputFile, outputImage, normalize, sprites, quads, canOpen);
    case JsonExporter =>
      ok, out := ExportJson(outputFile, outputImage, sprites, quads, canOpen);
  }
}
