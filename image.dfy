/**
 * Sprites, padded render sprites and the padding layout of MakeRenderSprite.
 *
 * A loaded sprite is an image of w x h pixels. Before packing it is redrawn
 * into a padded candidate of (w + 2p) x (h + 2p) pixels: the sprite itself goes
 * into the inner rectangle at (p, p), and the border of width p is filled by
 * eight pieces (four corners, four edges) according to the padding mode. The
 * renderer is modelled by the list of paint commands issued to it; pixel
 * values and textures are not modelled.
 */
module Image {
  import opened Geometry
  import opened Text

  /** A loaded image; its texture handle is not modelled. */
  datatype Sprite = Sprite(filename: string, shortName: string, rect: Rect)

  /** A padded candidate: `src` is its own extent, `dst` where the packer put it. */
  datatype RenderSprite = RenderSprite(src: Rect, dst: Rect, sortingOrder: int)

  /** PaddingMode enumerators, as the C++ enum numbers them. */
  const PaddingBleed: int := 0
  const PaddingAlpha: int := 1
  const PaddingDebug: int := 2

  /** ImageFormat enumerators and the file extension of each. */
  const ImagePng: int := 0
  const ImageTga: int := 1
  const ImageBmp: int := 2
  const ImageExt: seq<string> := ["png", "tga", "bmp"]

  datatype Color = Color(r: int, g: int, b: int, a: int)

  const Transparent: Color := Color(0, 0, 0, 0)
  const Yellow: Color := Color(255, 255, 0, 255)

  /** One command issued to the render target of the padded candidate. */
  datatype PaintOp =
    | Clear(color: Color)
    | CopyFromSprite(from: Rect, to: Rect)
    | Fill(color: Color, to: Rect)

  /** The last path component of a file name: everything after the last separator. */
  function FileNamePart(filename: string): (r: string)
    ensures NoSeparator(r)
    ensures exists k :: 0 <= k <= |filename| && r == filename[k..]
                        && (k == 0 || filename[k - 1] in Separators)
  {
    match FindLastOf(filename, Separators)
    case None =>
      assert filename == filename[0..];
      filename
    case Some(sep) => filename[sep + 1..]
  }

  /**
   * The short name of a sprite: the file name without its directory and,
   * unless the name starts with '.', without everything from its first '.'.
   */
  function BaseSpriteName(filename: string): (r: string)
    ensures NoSeparator(r)
    ensures r <= FileNamePart(filename)
    ensures '.' in r ==> r == FileNamePart(filename) && r[0] == '.'
    ensures '.' !in FileNamePart(filename) ==> r == FileNamePart(filename)
    ensures var t := FileNamePart(filename);
      '.' in t && t[0] != '.' ==> |r| < |t| && t[|r|] == '.' && '.' !in r
    ensures var t := FileNamePart(filename);
      |t| > 0 && t[0] == '.' ==> r == t
  {
    var tail := FileNamePart(filename);
    match FindFirst(tail, '.')
    case Some(ext) =>
      if ext != 0 then tail[..ext] else tail
    case None => tail
  }

  /** A short name is already a short name: applying BaseSpriteName twice changes nothing. */
  lemma BaseSpriteNameIdempotent(filename: string)
    ensures BaseSpriteName(BaseSpriteName(filename)) == BaseSpriteName(filename)
  {
    var r := BaseSpriteName(filename);
    assert FindLastOf(r, Separators).None?;
    assert FileNamePart(r) == r;
  }

  /** The directory part of a path does not change the short name. */
  lemma BaseSpriteNameIgnoresDirectory(dir: string, sep: char, name: string)
    requires sep in Separators
    requires NoSeparator(name)
    ensures BaseSpriteName(dir + [sep] + name) == BaseSpriteName(name)
  {
    var f := dir + [sep] + name;
    assert f[|dir|] == sep;
    assert forall j :: |dir| < j < |f| ==> f[j] == name[j - |dir| - 1];
    var k := FindLastOf(f, Separators).value;
    assert k == |dir|;
    assert f[k + 1..] == name;
    assert FindLastOf(name, Separators).None?;
  }

  /** The padded candidate's extent for a sprite with padding p. */
  function PaddedSrc(sprite: Sprite, p: int): (r: Rect)
    ensures r.x == 0 && r.y == 0
    ensures r.w - sprite.rect.w == 2 * p && r.h - sprite.rect.h == 2 * p
  {
    PaddedRect(sprite.rect.w, sprite.rect.h, p)
  }

  /** The padded candidate of a w x h sprite. */
  function PaddedRect(w: int, h: int, p: int): Rect
  {
    Rect(0, 0, w + 2 * p, h + 2 * p)
  }

  /** Where the sprite itself is drawn inside its padded candidate. */
  function InnerDst(w: int, h: int, p: int): Rect
  {
    Rect(p, p, w, h)
  }

  /** The sprite pixels each border piece replicates: four corners, then the top, right, bottom and left edges. */
  function BleedSrc(w: int, h: int): (r: seq<Rect>)
    ensures |r| == 8
  {
    [ Rect(0, 0, 1, 1), Rect(w - 1, 0, 1, 1), Rect(w - 1, h - 1, 1, 1), Rect(0, h - 1, 1, 1),
      Rect(0, 0, w, 1), Rect(w - 1, 0, 1, h), Rect(0, h - 1, w, 1), Rect(0, 0, 1, h) ]
  }

  /** The border pieces of the padded candidate, in the order of BleedSrc. */
  function BleedDst(w: int, h: int, p: int): (r: seq<Rect>)
    ensures |r| == 8
  {
    [ Rect(0, 0, p, p), Rect(w + p, 0, p, p), Rect(w + p, h + p, p, p), Rect(0, h + p, p, p),
      Rect(p, 0, w, p), Rect(w + p, p, p, h), Rect(p, h + p, w, p), Rect(0, p, p, h) ]
  }

  /** The nine pieces a padded candidate is painted from: eight border pieces and the inner rectangle. */
  function Pieces(w: int, h: int, p: int): (r: seq<Rect>)
    ensures |r| == 9
  {
    BleedDst(w, h, p) + [InnerDst(w, h, p)]
  }

  /**
   * The nine pieces tile the padded candidate exactly: no two share a cell,
   * and a cell lies in some piece iff it lies in the padded rectangle.
   */
  lemma PiecesTilePaddedRect(w: int, h: int, p: int)
    requires w >= 0 && h >= 0 && p >= 0
    ensures forall i, j :: 0 <= i < j < 9 ==> !Overlap(Pieces(w, h, p)[i], Pieces(w, h, p)[j])
    ensures forall px, py :: PaddedRect(w, h, p).Covers(px, py) <==>
              exists k :: 0 <= k < 9 && Pieces(w, h, p)[k].Covers(px, py)
  {
    var ps := Pieces(w, h, p);
    forall px, py | PaddedRect(w, h, p).Covers(px, py)
      ensures exists k :: 0 <= k < 9 && ps[k].Covers(px, py)
    {
      var col := if px < p then 0 else if px < p + w then 1 else 2;
      var row := if py < p then 0 else if py < p + h then 1 else 2;
      var k :=
        if row == 0 then (if col == 0 then 0 else if col == 1 then 4 else 1)
        else if row == 1 then (if col == 0 then 7 else if col == 1 then 8 else 5)
        else (if col == 0 then 3 else if col == 1 then 6 else 2);
      assert ps[k].Covers(px, py);
    }
  }

  /** For a sprite of at least one pixel, each source piece is a non-empty part of the sprite. */
  lemma BleedSourcesInsideSprite(w: int, h: int)
    requires w >= 1 && h >= 1
    ensures forall k :: 0 <= k < 8 ==> BleedSrc(w, h)[k].Within(Rect(0, 0, w, h)) && !BleedSrc(w, h)[k].IsEmpty()
  {
  }

  /**
   * The corner sources are the four corner pixels and the edge sources are
   * the one-pixel-thick top, right, bottom and left strips of the sprite.
   */
  lemma BleedSourcesAreBorderPixels(w: int, h: int)
    requires w >= 1 && h >= 1
    ensures forall px, py :: BleedSrc(w, h)[0].Covers(px, py) <==> px == 0 && py == 0
    ensures forall px, py :: BleedSrc(w, h)[1].Covers(px, py) <==> px == w - 1 && py == 0
    ensures forall px, py :: BleedSrc(w, h)[2].Covers(px, py) <==> px == w - 1 && py == h - 1
    ensures forall px, py :: BleedSrc(w, h)[3].Covers(px, py) <==> px == 0 && py == h - 1
    ensures forall px, py :: BleedSrc(w, h)[4].Covers(px, py) <==> 0 <= px < w && py == 0
    ensures forall px, py :: BleedSrc(w, h)[5].Covers(px, py) <==> px == w - 1 && 0 <= py < h
    ensures forall px, py :: BleedSrc(w, h)[6].Covers(px, py) <==> 0 <= px < w && py == h - 1
    ensures forall px, py :: BleedSrc(w, h)[7].Covers(px, py) <==> px == 0 && 0 <= py < h
  {
  }

  /** The source piece k moved to where the sprite is drawn in the padded candidate. */
  function Shifted(r: Rect, p: int): Rect
  {
    Rect(r.x + p, r.y + p, r.w, r.h)
  }

  /**
   * Each border piece sits right against the pixels it replicates, as drawn
   * in the inner rectangle, and stretches them outward: an edge keeps its run
   * length and grows from thickness 1 to p, a corner grows from 1 x 1 to p x p.
   */
  lemma BleedPiecesAdjoinTheirSources(w: int, h: int, p: int)
    ensures var s, d := BleedSrc(w, h), BleedDst(w, h, p);
      // top-left, top-right, bottom-right, bottom-left corners: diagonal neighbours
      && d[0].x + d[0].w == Shifted(s[0], p).x && d[0].y + d[0].h == Shifted(s[0], p).y
      && d[1].x == Shifted(s[1], p).x + 1 && d[1].y + d[1].h == Shifted(s[1], p).y
      && d[2].x == Shifted(s[2], p).x + 1 && d[2].y == Shifted(s[2], p).y + 1
      && d[3].x + d[3].w == Shifted(s[3], p).x && d[3].y == Shifted(s[3], p).y + 1
      && (forall k :: 0 <= k < 4 ==> s[k].w == 1 && s[k].h == 1 && d[k].w == p && d[k].h == p)
      // top and bottom edges: same columns, directly above / below
      && d[4].x == Shifted(s[4], p).x && d[4].w == s[4].w == w && s[4].h == 1 && d[4].h == p
      && d[4].y + d[4].h == Shifted(s[4], p).y
      && d[6].x == Shifted(s[6], p).x && d[6].w == s[6].w == w && s[6].h == 1 && d[6].h == p
      && d[6].y == Shifted(s[6], p).y + 1
      // right and left edges: same rows, directly right / left
      && d[5].y == Shifted(s[5], p).y && d[5].h == s[5].h == h && s[5].w == 1 && d[5].w == p
      && d[5].x == Shifted(s[5], p).x + 1
      && d[7].y == Shifted(s[7], p).y && d[7].h == s[7].h == h && s[7].w == 1 && d[7].w == p
      && d[7].x + d[7].w == Shifted(s[7], p).x
  {
  }

  /** Without padding every border piece is empty and the candidate is the sprite itself. */
  lemma ZeroPaddingIsPlainCopy(sprite: Sprite)
    ensures forall k :: 0 <= k < 8 ==> BleedDst(sprite.rect.w, sprite.rect.h, 0)[k].IsEmpty()
    ensures InnerDst(sprite.rect.w, sprite.rect.h, 0) == PaddedSrc(sprite, 0)
  {
  }

  /**
   * Builds the padded candidate of a sprite and the paint commands that draw
   * it: clear to transparent, paint the eight border pieces as the padding
   * mode says, then copy the sprite into the inner rectangle. A mode outside
   * the three enumerators aborts at the first border piece (`ok` is false).
   * The candidate's `dst` and `sortingOrder` are left for the caller to set.
   */
  method MakeRenderSprite(sprite: Sprite, padding: int, mode: int)
    returns (rs: RenderSprite, ops: seq<PaintOp>, ok: bool)
    ensures rs == RenderSprite(PaddedSrc(sprite, padding), Rect(0, 0, 0, 0), 0)
    ensures ok <==> mode in {PaddingBleed, PaddingAlpha, PaddingDebug}
    ensures !ok ==> ops == [Clear(Transparent)]
    ensures ok ==> |ops| == 10 && ops[0] == Clear(Transparent)
    ensures ok ==> ops[9] == CopyFromSprite(sprite.rect, InnerDst(sprite.rect.w, sprite.rect.h, padding))
    ensures mode == PaddingBleed ==> forall k :: 0 <= k < 8 ==>
              ops[k + 1] == CopyFromSprite(BleedSrc(sprite.rect.w, sprite.rect.h)[k],
                                           BleedDst(sprite.rect.w, sprite.rect.h, padding)[k])
    ensures mode == PaddingAlpha ==> forall k :: 0 <= k < 8 ==>
              ops[k + 1] == Fill(Transparent, BleedDst(sprite.rect.w, sprite.rect.h, padding)[k])
    ensures mode == PaddingDebug ==> forall k :: 0 <= k < 8 ==>
              ops[k + 1] == Fill(Yellow, BleedDst(sprite.rect.w, sprite.rect.h, padding)[k])
  {
    var p := padding;
    var w, h := sprite.rect.w, sprite.rect.h;
    rs := RenderSprite(PaddedRect(w, h, p), Rect(0, 0, 0, 0), 0);
    var bleedSrc := BleedSrc(w, h);
    var bleedDst := BleedDst(w, h, p);
    var dst := InnerDst(w, h, p);
    var drawColor := Transparent;
    ops := [Clear(drawColor)];
    ok := true;
    var i := 0;
    while i < 8
      invariant 0 <= i <= 8
      invariant |ops| == i + 1 && ops[0] == Clear(Transparent)
      invariant mode != PaddingDebug ==> drawColor == Transparent
      invariant i > 0 && mode == PaddingDebug ==> drawColor == Yellow
      invariant mode == PaddingBleed ==> forall k :: 0 <= k < i ==> ops[k + 1] == CopyFromSprite(bleedSrc[k], bleedDst[k])
      invariant mode == PaddingAlpha ==> forall k :: 0 <= k < i ==> ops[k + 1] == Fill(Transparent, bleedDst[k])
      invariant mode == PaddingDebug ==> forall k :: 0 <= k < i ==> ops[k + 1] == Fill(Yellow, bleedDst[k])
      invariant i > 0 ==> mode in {PaddingBleed, PaddingAlpha, PaddingDebug}
    {
      if mode == PaddingBleed {
        ops := ops + [CopyFromSprite(bleedSrc[i], bleedDst[i])];
      } else if mode == PaddingAlpha {
        ops := ops + [Fill(drawColor, bleedDst[i])];
      } else if mode == PaddingDebug {
        drawColor := Yellow;
        ops := ops + [Fill(drawColor, bleedDst[i])];
      } else {
        ok := false;
        return;
      }
      i := i + 1;
    }
    ops := ops + [CopyFromSprite(sprite.rect, dst)];
  }
}
