/**
 * An atlas: the sprites it holds, their animation groups, the padded
 * candidates the packer arranges, and the texture they are drawn into.
 *
 * SDL objects are modelled by what the packer's bookkeeping needs: the
 * texture by its size and a serial number telling textures apart, and the
 * render pass by the list of (candidate, src, dst) copies it issues.
 */
module Atlases {
  import opened Text
  import opened Geometry
  import opened Image
  import opened Sizing
  import opened Placement
  import opened Seqs
  import opened Retry
  import opened Exporters
  import opened Frames

  /** The group an atlas creates when a sprite arrives and it has none. */
  const DefaultGroupName: string := "<none>"

  /** The output settings of an atlas, the part a project file stores. */
  datatype AtlasSettings = AtlasSettings(outputFile: string, outputImage: string, imageFormat: int,
                               square: bool, padding: int, paddingMode: int,
                               normalize: bool, yUp: bool)

  /** The settings of a new atlas. */
  const DefaultSettings: AtlasSettings :=
    AtlasSettings("untitled.atlas", "untitled.png", ImagePng, false, 0, PaddingBleed, false, false)

  /** An SDL texture of the given size; textures created apart have different serials. */
  datatype TextureInfo = TextureInfo(serial: nat, w: int, h: int)

  /** One SDL_RenderCopy of candidate `order`'s texture from src to dst. */
  datatype Blit = Blit(order: int, src: Rect, dst: Rect)

  /**
   * The result of Pack. `Undefined` stands for the cases where the C++ code
   * has undefined behaviour: its 32-bit arithmetic leaves the range of int,
   * or a candidate has no pixels, so that the corner test reads the mask
   * one column or row before the candidate's position, outside the mask.
   */
  datatype PackOutcome = Packed(size: Point) | Undefined

  /** One attempt of Pack either ends it or asks for a retry with a new hint. */
  datatype Attempt = Done(outcome: PackOutcome) | Retry(next: int)

  /** What identifies a candidate apart from where it is placed. */
  function Key(rs: RenderSprite): (Rect, int) { (rs.src, rs.sortingOrder) }

  function Keys(s: seq<RenderSprite>): seq<(Rect, int)> { Map(Key, s) }

  function DstOf(rs: RenderSprite): Rect { rs.dst }

  function Dsts(s: seq<RenderSprite>): seq<Rect> { Map(DstOf, s) }

  function OrderOf(rs: RenderSprite): int { rs.sortingOrder }

  function BlitOf(rs: RenderSprite): Blit { Blit(rs.sortingOrder, rs.src, rs.dst) }

  /** The candidate of a sprite: its padded rectangle, not yet placed, with sorting order `order`. */
  function Candidate(sprite: Sprite, padding: int, order: int): RenderSprite
  {
    RenderSprite(PaddedSrc(sprite, padding), Rect(0, 0, 0, 0), order)
  }

  /** The candidates RenderSprites builds: sprite i padded, with sorting order i. */
  function Candidates(sprites: seq<Sprite>, padding: int): (r: seq<RenderSprite>)
    ensures |r| == |sprites|
    ensures forall i :: 0 <= i < |sprites| ==>
      r[i].src == PaddedSrc(sprites[i], padding) && r[i].sortingOrder == i
  {
    seq(|sprites|, i requires 0 <= i < |sprites| => Candidate(sprites[i], padding, i))
  }

  /** The candidates s with the placements d written into their dst fields. */
  function WithDsts(s: seq<RenderSprite>, d: seq<Rect>): (r: seq<RenderSprite>)
    requires |d| == |s|
    ensures |r| == |s| && Keys(r) == Keys(s) && Dsts(r) == d
    ensures forall i :: 0 <= i < |s| ==> r[i].src == s[i].src
  {
    seq(|s|, i requires 0 <= i < |s| => s[i].(dst := d[i]))
  }

  /**
   * The candidates s as an attempt leaves them when it stops at candidate
   * |d|: the ones before it have their placements d written into dst, the
   * rest are untouched.
   */
  function WithPrefixDsts(s: seq<RenderSprite>, d: seq<Rect>): (r: seq<RenderSprite>)
    requires |d| <= |s|
    ensures |r| == |s| && Keys(r) == Keys(s)
    ensures forall i :: 0 <= i < |s| ==> r[i].src == s[i].src
    ensures forall i :: 0 <= i < |d| ==> r[i].dst == d[i]
    ensures forall i :: |d| <= i < |s| ==> r[i] == s[i]
  {
    seq(|s|, i requires 0 <= i < |s| => if i < |d| then s[i].(dst := d[i]) else s[i])
  }

  /**
   * r is what an attempt in container `size` leaves of the sorted
   * candidates s when it stops at a candidate that finds no row.
   */
  ghost predicate RetryState(r: seq<RenderSprite>, s: seq<RenderSprite>, size: Point)
  {
    exists d :: StoppedPlacement(s, size, d) && r == WithPrefixDsts(s, d)
  }

  /** The state a failed attempt leaves is determined by its candidates and container. */
  lemma RetryStateUnique(r1: seq<RenderSprite>, r2: seq<RenderSprite>, s: seq<RenderSprite>, size: Point)
    requires RetryState(r1, s, size) && RetryState(r2, s, size)
    ensures r1 == r2
  {
    var d1 :| StoppedPlacement(s, size, d1) && r1 == WithPrefixDsts(s, d1);
    var d2 :| StoppedPlacement(s, size, d2) && r2 == WithPrefixDsts(s, d2);
    StoppedPlacementUnique(s, size, d1, d2);
  }

  /** Every candidate is drawn at its own size inside the size.x x size.y texture. */
  predicate Placed(s: seq<RenderSprite>, size: Point)
  {
    forall i :: 0 <= i < |s| ==>
      s[i].dst.w == s[i].src.w && s[i].dst.h == s[i].src.h
      && s[i].dst.Within(Rect(0, 0, size.x, size.y))
  }

  lemma PlacedPermutation(a: seq<RenderSprite>, b: seq<RenderSprite>, size: Point)
    requires multiset(a) == multiset(b) && Placed(a, size)
    ensures Placed(b, size)
  {
    forall i | 0 <= i < |b|
      ensures b[i].dst.w == b[i].src.w && b[i].dst.h == b[i].src.h
      ensures b[i].dst.Within(Rect(0, 0, size.x, size.y))
    {
      assert b[i] in multiset(a);
    }
  }

  lemma KeysPermutation(a: seq<RenderSprite>, b: seq<RenderSprite>)
    requires multiset(a) == multiset(b)
    ensures multiset(Keys(a)) == multiset(Keys(b))
  {
    MapRespectsMultiset(Key, a, b);
  }

  /**
   * Candidates with the same src rectangles, position by position, have the
   * same measures; the packer reads nothing else of them.
   */
  lemma SameSrcs(a: seq<RenderSprite>, b: seq<RenderSprite>)
    requires |a| == |b| && forall i :: 0 <= i < |a| ==> a[i].src == b[i].src
    ensures StatsOf(a) == StatsOf(b) && SumOf(a, HeightOf) == SumOf(b, HeightOf)
    ensures NonEmptySizes(a) == NonEmptySizes(b) && Bounded(a) == Bounded(b)
  {
    SumAgrees(a, b, AreaOf);
    SumAgrees(a, b, HeightOf);
    MaxAgrees(a, b, WidthOf);
    MaxAgrees(a, b, HeightOf);
    if NonEmptySizes(a) {
      SameSrcsNonEmpty(a, b);
    }
    if NonEmptySizes(b) {
      SameSrcsNonEmpty(b, a);
    }
  }

  lemma SameSrcsNonEmpty(a: seq<RenderSprite>, b: seq<RenderSprite>)
    requires |a| == |b| && forall i :: 0 <= i < |a| ==> a[i].src == b[i].src
    requires NonEmptySizes(a)
    ensures NonEmptySizes(b)
  {
    forall i | 0 <= i < |b|
      ensures b[i].src.w >= 1 && b[i].src.h >= 1
    {
      assert a[i].src == b[i].src;
    }
  }

  /** Non-decreasing sorting order, the order Export's sort asks for. */
  predicate SortedByOrder(s: seq<RenderSprite>)
  {
    forall i, j :: 0 <= i < j < |s| ==> s[i].sortingOrder <= s[j].sortingOrder
  }

  /** Putting s[0] back in front of the insertion into s[1..] keeps the order. */
  lemma InsertByOrderHead(x: RenderSprite, s: seq<RenderSprite>, t: seq<RenderSprite>)
    requires SortedByOrder(s) && |s| > 0 && !(x.sortingOrder <= s[0].sortingOrder)
    requires SortedByOrder(t) && multiset(t) == multiset(s[1..]) + multiset{x}
    ensures SortedByOrder([s[0]] + t) && multiset([s[0]] + t) == multiset(s) + multiset{x}
  {
    assert s == [s[0]] + s[1..];
    forall j | 0 <= j < |t|
      ensures s[0].sortingOrder <= t[j].sortingOrder
    {
      assert t[j] in multiset(t);
      if t[j] != x {
        assert t[j] in multiset(s[1..]);
      }
    }
  }

  function InsertByOrder(x: RenderSprite, s: seq<RenderSprite>): (r: seq<RenderSprite>)
    requires SortedByOrder(s)
    ensures SortedByOrder(r)
    ensures multiset(r) == multiset(s) + multiset{x}
  {
    if |s| == 0 then [x]
    else if x.sortingOrder <= s[0].sortingOrder then [x] + s
    else
      var t := InsertByOrder(x, s[1..]);
      InsertByOrderHead(x, s, t);
      [s[0]] + t
  }

  /** The order Export's sort leaves the candidates in. */
  function SortByOrder(s: seq<RenderSprite>): (r: seq<RenderSprite>)
    ensures SortedByOrder(r)
    ensures multiset(r) == multiset(s)
  {
    if |s| == 0 then []
    else
      assert s == [s[0]] + s[1..];
      InsertByOrder(s[0], SortByOrder(s[1..]))
  }

  /**
   * Sorting any rearrangement of the candidates of `sprites` by sorting
   * order restores them exactly: position i holds sprite i's candidate.
   */
  lemma ExportOrder(s: seq<RenderSprite>, sprites: seq<Sprite>, padding: int)
    requires multiset(Keys(s)) == multiset(Keys(Candidates(sprites, padding)))
    requires SortedByOrder(s)
    ensures |s| == |sprites|
    ensures forall i :: 0 <= i < |s| ==> s[i].sortingOrder == i && s[i].src == PaddedSrc(sprites[i], padding)
  {
    var c := Keys(Candidates(sprites, padding));
    var second := (k: (Rect, int)) => k.1;
    MapRespectsMultiset(second, Keys(s), c);
    assert Map(second, c) == Range(|sprites|);
    var orders := Map(second, Keys(s));
    assert forall i, j :: 0 <= i < j < |orders| ==> orders[i] <= orders[j];
    SortedPermutationOfRange(orders, |sprites|);
    forall i | 0 <= i < |s|
      ensures s[i].sortingOrder == i && s[i].src == PaddedSrc(sprites[i], padding)
    {
      assert orders[i] == i;
      assert Keys(s)[i] in multiset(c);
      var j :| 0 <= j < |c| && c[j] == Keys(s)[i];
    }
  }

  /**
   * The quad Export hands to the exporter for a candidate placed at dst:
   * the padding stripped, y flipped when yUp, and x and y (but not w and h)
   * divided by the texture size when normalize.
   */
  function QuadOf(dst: Rect, padding: int, yUp: bool, normalize: bool, width: int, height: int): Quad
    requires normalize ==> width != 0 && height != 0
  {
    var x := (dst.x + padding) as real;
    var y := (dst.y + padding) as real;
    var w := (dst.w - 2 * padding) as real;
    var h := (dst.h - 2 * padding) as real;
    var y1 := if yUp then height as real - y - h else y;
    if normalize then Quad(x / width as real, y1 / height as real, w, h) else Quad(x, y1, w, h)
  }

  /**
   * The quad of a padded candidate placed inside the texture has the
   * sprite's own size and lies inside the texture, flipped or not; once
   * normalized its x and y lie in [0, 1].
   */
  lemma QuadInsideTexture(sprite: Sprite, dst: Rect, padding: int, yUp: bool, normalize: bool, width: int, height: int)
    requires padding >= 0 && width >= 1 && height >= 1
    requires sprite.rect.w >= 0 && sprite.rect.h >= 0
    requires dst.w == PaddedSrc(sprite, padding).w && dst.h == PaddedSrc(sprite, padding).h
    requires dst.Within(Rect(0, 0, width, height))
    ensures var q := QuadOf(dst, padding, yUp, normalize, width, height);
      q.w == sprite.rect.w as real && q.h == sprite.rect.h as real
      && (!normalize ==> 0.0 <= q.x && q.x + q.w <= width as real && 0.0 <= q.y && q.y + q.h <= height as real)
      && (normalize ==> 0.0 <= q.x <= 1.0 && 0.0 <= q.y <= 1.0)
  {
    var q := QuadOf(dst, padding, yUp, normalize, width, height);
    var x := (dst.x + padding) as real;
    var y := (dst.y + padding) as real;
    var w := (dst.w - 2 * padding) as real;
    var h := (dst.h - 2 * padding) as real;
    var y1 := if yUp then height as real - y - h else y;
    assert 0.0 <= x && x + w <= width as real;
    assert 0.0 <= y1 && y1 + h <= height as real;
    if normalize {
      RatioInUnit(x, width as real);
      RatioInUnit(y1, height as real);
    }
  }

  lemma RatioInUnit(a: real, b: real)
    requires 0.0 <= a <= b && b > 0.0
    ensures 0.0 <= a / b <= 1.0
  {
    var q := a / b;
    assert q * b == a;
  }

  /** The frames group `anim` gains when sprite number `n` is appended. */
  function GroupsForAppend(anims: seq<Animation>): (r: seq<Animation>)
    ensures |anims| == 0 ==> r == [Animation(DefaultGroupName, 0.0, [])]
    ensures |anims| > 0 ==> r == anims
  {
    if |anims| == 0 then [Animation(DefaultGroupName, 0.0, [])] else anims
  }

  /** The groups after AppendSprite adds frame f to group g, creating the default group first if there is none. */
  function WithFrame(anims: seq<Animation>, g: int, f: int): (r: seq<Animation>)
    requires 0 <= g < |GroupsForAppend(anims)|
    ensures |r| == |GroupsForAppend(anims)|
  {
    var groups := GroupsForAppend(anims);
    groups[g := groups[g].(frames := groups[g].frames + [f])]
  }

  /** AppendSprite's new frame n extends a partition of 0..n-1 to one of 0..n. */
  lemma WithFrameKeepsPartition(anims: seq<Animation>, n: nat, g: int)
    requires FramesPartition(anims, n) && 0 <= g < |GroupsForAppend(anims)|
    ensures FramesPartition(WithFrame(anims, g, n), n + 1)
  {
    DefaultGroupKeepsPartition(anims, n);
    AppendKeepsPartition(GroupsForAppend(anims), n, g);
  }

  /** Adding frame n to any group of a partition of 0..n-1 gives a partition of 0..n. */
  lemma AppendKeepsPartition(anims: seq<Animation>, n: nat, g: int)
    requires FramesPartition(anims, n) && 0 <= g < |anims|
    ensures FramesPartition(anims[g := anims[g].(frames := anims[g].frames + [n])], n + 1)
  {
    var fs := anims[g].frames;
    ReplaceGroupFrames(anims, g, fs + [n]);
    GroupWithinAll(anims, g);
    assert multiset(fs + [n]) == multiset(fs) + multiset{n};
    AddOne(multiset(AllFrames(anims)), multiset(fs), n);
    RangeSnoc(n);
  }

  /** Multiset arithmetic behind AppendKeepsPartition. */
  lemma AddOne(whole: multiset<int>, group: multiset<int>, x: int)
    requires group <= whole
    ensures whole - group + (group + multiset{x}) == whole + multiset{x}
  {
    forall y
      ensures (whole - group + (group + multiset{x}))[y] == (whole + multiset{x})[y]
    {
    }
  }

  lemma DefaultGroupKeepsPartition(anims: seq<Animation>, n: nat)
    requires FramesPartition(anims, n)
    ensures FramesPartition(GroupsForAppend(anims), n)
  {
    if |anims| == 0 {
      assert AllFrames([Animation(DefaultGroupName, 0.0, [])]) == [] by {
        assert [Animation(DefaultGroupName, 0.0, [])][..0] == [];
      }
    }
  }

  /** Some full placement of the candidates s exists in a size.x x size.y container. */
  ghost predicate Fitting(s: seq<RenderSprite>, size: Point)
  {
    exists full :: |full| == |s| && FirstFitPlacement(s, size, full)
  }

  /** Attempt (heur, n) on the sorted candidates s runs out of rows for some candidate. */
  ghost predicate AttemptFails(s: seq<RenderSprite>, square: bool, heur: int, n: int)
  {
    NonEmptySizes(s) && InRange(StatsOf(s), square, heur, n)
    && !Fitting(s, PackedSizeOf(StatsOf(s), square, heur, n))
  }

  /**
   * When the scan runs out of rows for a candidate, no full placement
   * exists in this container, and the next attempt's hint and count again
   * satisfy RetryHint; for Bounded candidates the next hint stays within
   * the next attempt's cap.
   */
  lemma AttemptFailed(s: seq<RenderSprite>, square: bool, heur: int, n: int, dsts: seq<Rect>)
    requires RetryHint(heur, n) && NonEmptySizes(s) && InRange(StatsOf(s), square, heur, n)
    requires var size := PackedSizeOf(StatsOf(s), square, heur, n);
      FirstFitPlacement(s, size, dsts) && |dsts| < |s|
      && NoRoom(dsts, s[|dsts|].src.w, s[|dsts|].src.h, size)
    ensures AttemptFails(s, square, heur, n)
    ensures RetryHint(PackedSizeOf(StatsOf(s), square, heur, n).y + 1, n + 1)
    ensures Bounded(s) && heur <= HeurCap(n) ==> PackedSizeOf(StatsOf(s), square, heur, n).y + 1 <= HeurCap(n + 1)
  {
    var size := PackedSizeOf(StatsOf(s), square, heur, n);
    forall full | |full| == |s|
      ensures !FirstFitPlacement(s, size, full)
    {
      StoppedMeansNoFullPlacement(s, size, dsts, full);
    }
    assert s[0].src.w <= MaxOf(s, WidthOf) && s[0].src.h <= MaxOf(s, HeightOf);
    NextRetryHint(StatsOf(s), square, heur, n);
    if Bounded(s) && heur <= HeurCap(n) {
      if size.x >= MaxOf(s, WidthOf) && size.y >= SumOf(s, HeightOf) {
        StackingFits(s, size, dsts);
        assert false;
      }
      BoundedRetry(s, square, heur, n);
    }
  }

  /** A placement depends only on the candidates' src rectangles. */
  lemma PlacementSameSrcs(a: seq<RenderSprite>, b: seq<RenderSprite>, size: Point, d: seq<Rect>)
    requires |a| == |b| && forall i :: 0 <= i < |a| ==> a[i].src == b[i].src
    requires FirstFitPlacement(a, size, d)
    ensures FirstFitPlacement(b, size, d)
    ensures SortedByArea(a) ==> SortedByArea(b)
  {
  }

  /**
   * s was placed by the attempt with hint heur and retry count n: that
   * attempt's size is `size` and every candidate sits where first fit put it.
   */
  ghost predicate PackedBy(s: seq<RenderSprite>, square: bool, heur: int, n: int, size: Point)
  {
    RetryHint(heur, n) && NonEmptySizes(s) && InRange(StatsOf(s), square, heur, n)
    && size == PackedSizeOf(StatsOf(s), square, heur, n)
    && FirstFitPlacement(s, size, Dsts(s))
  }

  /**
   * A full first-fit placement ends the attempt: the candidates take the
   * found placements and are then PackedBy this attempt, and no retry
   * follows.
   */
  lemma PlacedAttempt(s: seq<RenderSprite>, square: bool, heur: int, n: int, dsts: seq<Rect>)
    requires RetryHint(heur, n) && NonEmptySizes(s) && InRange(StatsOf(s), square, heur, n)
    requires FirstFitPlacement(s, PackedSizeOf(StatsOf(s), square, heur, n), dsts) && |dsts| == |s|
    requires SortedByArea(s)
    ensures var out := WithDsts(s, dsts);
      PackedBy(out, square, heur, n, PackedSizeOf(StatsOf(s), square, heur, n))
      && Keys(out) == Keys(s) && SortedByArea(out) && (Bounded(s) ==> Bounded(out))
    ensures !AttemptFails(s, square, heur, n)
  {
    var out := WithDsts(s, dsts);
    SameSrcs(s, out);
    PlacementSameSrcs(s, out, PackedSizeOf(StatsOf(s), square, heur, n), dsts);
  }

  /**
   * The placement half of an attempt: places the sorted candidates s in the
   * container `size` estimated for (heur, n). Either every candidate is
   * placed and `out` is s with the placements written in, or the attempt
   * fails at some candidate, `out` is s with the placements made before it
   * written in, and the next hint is the container height plus one.
   */
  method PlaceAttempt(s: seq<RenderSprite>, square: bool, heur: int, n: int, size: Point)
    returns (a: Attempt, out: seq<RenderSprite>)
    requires RetryHint(heur, n) && NonEmptySizes(s) && InRange(StatsOf(s), square, heur, n)
    requires size == PackedSizeOf(StatsOf(s), square, heur, n) && SortedByArea(s)
    ensures a.Done? ==> a.outcome == Packed(size) && PackedBy(out, square, heur, n, size)
    ensures Keys(out) == Keys(s) && SortedByArea(out) && (Bounded(s) ==> Bounded(out))
    ensures a.Retry? ==> RetryState(out, s, size)
    ensures a.Retry? ==> a.next == size.y + 1 && RetryHint(a.next, n + 1)
    ensures a.Retry? <==> AttemptFails(s, square, heur, n)
    ensures a.Retry? && Bounded(s) && heur <= HeurCap(n) ==> a.next <= HeurCap(n + 1)
  {
    var dsts, ok := Place(s, size);
    if ok {
      PlacedAttempt(s, square, heur, n, dsts);
      return Done(Packed(size)), WithDsts(s, dsts);
    }
    AttemptFailed(s, square, heur, n, dsts);
    out := WithPrefixDsts(s, dsts);
    SameSrcs(s, out);
    return Retry(size.y + 1), out;
  }

  /**
   * An attempt only fails with a candidate to place, and the hint it
   * retries with, its container height plus one, keeps RetryHint.
   */
  lemma FailedAttemptHint(s: seq<RenderSprite>, square: bool, heur: int, n: int)
    requires RetryHint(heur, n) && AttemptFails(s, square, heur, n)
    ensures |s| > 0
    ensures RetryHint(PackedSizeOf(StatsOf(s), square, heur, n).y + 1, n + 1)
  {
    if |s| == 0 {
      assert FirstFitPlacement(s, PackedSizeOf(StatsOf(s), square, heur, n), []);
      assert false;
    }
    assert s[0].src.w <= MaxOf(s, WidthOf) && s[0].src.h <= MaxOf(s, HeightOf);
    NextRetryHint(StatsOf(s), square, heur, n);
  }

  /**
   * What attempt (heur, n) of Pack does with the sorted candidates s:
   * undefined behaviour when a candidate has no pixels or the size
   * arithmetic leaves int, a retry with hint size.y + 1 when some candidate
   * runs out of rows, and otherwise the container of that attempt.
   */
  ghost function AttemptOf(s: seq<RenderSprite>, square: bool, heur: int, n: int): (a: Attempt)
    requires RetryHint(heur, n)
    ensures a.Retry? <==> AttemptFails(s, square, heur, n)
    ensures a.Retry? ==> |s| > 0 && RetryHint(a.next, n + 1)
    ensures a.Done? && a.outcome.Packed? ==>
      NonEmptySizes(s) && InRange(StatsOf(s), square, heur, n) && Fitting(s, a.outcome.size)
  {
    if !NonEmptySizes(s) || !InRange(StatsOf(s), square, heur, n) then Done(Undefined)
    else
      var size := PackedSizeOf(StatsOf(s), square, heur, n);
      if AttemptFails(s, square, heur, n) then
        FailedAttemptHint(s, square, heur, n);
        Retry(size.y + 1)
      else Done(Packed(size))
  }

  /**
   * The retry chain Pack runs from attempt (heur, n) on the sorted
   * candidates s: attempts follow each other with hint size.y + 1 and count
   * n + 1 until one does not retry. The result is that attempt's outcome,
   * hint and count.
   */
  ghost function PackChain(s: seq<RenderSprite>, square: bool, heur: int, n: int): (r: (PackOutcome, int, int))
    requires RetryHint(heur, n)
    decreases 512 - n
    ensures n <= r.2 <= 33 && RetryHint(r.1, r.2)
    ensures AttemptOf(s, square, r.1, r.2) == Done(r.0)
    ensures r.2 == n <==> !AttemptFails(s, square, heur, n)
  {
    RetryBound(heur, n);
    match AttemptOf(s, square, heur, n)
    case Done(outcome) => (outcome, heur, n)
    case Retry(next) => PackChain(s, square, next, n + 1)
  }

  /**
   * WideCandidates(t), four 65536 x 1024 candidates and one 65536 x t (t = 1 gives the area
   * 268500992): the start sides 65536 x 32768 would overflow an `int`, but
   * the first attempt halves the height before the mask is allocated, so
   * it is defined, in a container of 65536 x 16384 that is as wide as the
   * widest candidate and taller than the 4096 + t rows they stack to.
   */
  lemma WideCandidatesAttemptDefined(t: int)
    requires 1 <= t <= 1024
    ensures var s := WideCandidates(t);
      StatsOf(s) == Stats(0x1000_0000 + 65536 * t, 65536, 1024) && SumOf(s, HeightOf) == 4096 + t
      && InRange(StatsOf(s), false, 0, 0) && AttemptOf(s, false, 0, 0) != Done(Undefined)
      && PackedSizeOf(StatsOf(s), false, 0, 0) == Point(65536, 16384)
  {
    WideCandidatesStats(t);
    WideStartHalvesInRange(0x1000_0000 + 65536 * t);
  }

  function WideCandidates(t: int): seq<RenderSprite>
  {
    Copies(RenderSprite(Rect(0, 0, 65536, 1024), Rect(0, 0, 0, 0), 0), 4)
      + [RenderSprite(Rect(0, 0, 65536, t), Rect(0, 0, 0, 0), 4)]
  }

  /** k copies of x. */
  function Copies(x: RenderSprite, k: nat): (r: seq<RenderSprite>)
    ensures |r| == k && forall i :: 0 <= i < k ==> r[i] == x
  {
    if k == 0 then [] else Copies(x, k - 1) + [x]
  }

  lemma WideCandidatesStats(t: int)
    requires 1 <= t <= 1024
    ensures var s := WideCandidates(t);
      NonEmptySizes(s) && StatsOf(s) == Stats(0x1000_0000 + 65536 * t, 65536, 1024)
      && SumOf(s, HeightOf) == 4096 + t
  {
    var big := RenderSprite(Rect(0, 0, 65536, 1024), Rect(0, 0, 0, 0), 0);
    var last := RenderSprite(Rect(0, 0, 65536, t), Rect(0, 0, 0, 0), 4);
    CopiesSums(big, 4);
    CopiesMaxima(big, 4);
    StatsSnoc(Copies(big, 4), last);
    var s := WideCandidates(t);
    forall i | 0 <= i < |s|
      ensures s[i].src.w >= 1 && s[i].src.h >= 1
    {
      assert s[i] == if i < 4 then Copies(big, 4)[i] else last;
    }
  }

  /** k copies of x cover k times its area and stack to k times its height. */
  lemma {:induction false} CopiesSums(x: RenderSprite, k: nat)
    ensures SumOf(Copies(x, k), AreaOf) == k * AreaOf(x) && SumOf(Copies(x, k), HeightOf) == k * HeightOf(x)
  {
    if k > 0 {
      var a, h := AreaOf(x), HeightOf(x);
      CopiesSums(x, k - 1);
      StatsSnoc(Copies(x, k - 1), x);
      assert (k - 1) * a + a == k * a && (k - 1) * h + h == k * h;
    }
  }

  /** The widest and tallest of k >= 1 copies of x is x itself. */
  lemma {:induction false} CopiesMaxima(x: RenderSprite, k: nat)
    requires x.src.w >= 0 && x.src.h >= 0
    ensures MaxOf(Copies(x, k), WidthOf) == (if k == 0 then 0 else x.src.w)
    ensures MaxOf(Copies(x, k), HeightOf) == (if k == 0 then 0 else x.src.h)
  {
    if k > 0 {
      CopiesMaxima(x, k - 1);
      StatsSnoc(Copies(x, k - 1), x);
    }
  }

  /** The measures of s + [x]: the sum grows by x's value and the maximum takes x into account. */
  lemma StatsSnoc(s: seq<RenderSprite>, x: RenderSprite)
    ensures SumOf(s + [x], AreaOf) == SumOf(s, AreaOf) + AreaOf(x)
    ensures SumOf(s + [x], HeightOf) == SumOf(s, HeightOf) + HeightOf(x)
    ensures MaxOf(s + [x], WidthOf) == Max(MaxOf(s, WidthOf), WidthOf(x))
    ensures MaxOf(s + [x], HeightOf) == Max(MaxOf(s, HeightOf), HeightOf(x))
  {
    assert (s + [x])[..|s|] == s;
  }

  /** Some full placement of a carries over to b when the src rectangles agree. */
  lemma FittingSameSrcs(a: seq<RenderSprite>, b: seq<RenderSprite>, size: Point)
    requires |a| == |b| && forall i :: 0 <= i < |a| ==> a[i].src == b[i].src
    requires Fitting(a, size)
    ensures Fitting(b, size)
  {
    var full :| |full| == |a| && FirstFitPlacement(a, size, full);
    PlacementSameSrcs(a, b, size, full);
  }

  /** An attempt reads only the candidates' src rectangles. */
  lemma AttemptSameSrcs(a: seq<RenderSprite>, b: seq<RenderSprite>, square: bool, heur: int, n: int)
    requires |a| == |b| && forall i :: 0 <= i < |a| ==> a[i].src == b[i].src
    requires RetryHint(heur, n)
    ensures AttemptOf(a, square, heur, n) == AttemptOf(b, square, heur, n)
  {
    SameSrcs(a, b);
    if NonEmptySizes(a) && InRange(StatsOf(a), square, heur, n) {
      var size := PackedSizeOf(StatsOf(a), square, heur, n);
      if Fitting(a, size) {
        FittingSameSrcs(a, b, size);
      }
      if Fitting(b, size) {
        FittingSameSrcs(b, a, size);
      }
    }
  }

  /**
   * The whole retry chain reads only the candidates' src rectangles: lists
   * that agree on them, position by position, end in the same attempt with
   * the same outcome.
   */
  lemma {:induction false} ChainSameSrcs(a: seq<RenderSprite>, b: seq<RenderSprite>, square: bool, heur: int, n: int)
    requires |a| == |b| && forall i :: 0 <= i < |a| ==> a[i].src == b[i].src
    requires RetryHint(heur, n)
    decreases 512 - n
    ensures PackChain(a, square, heur, n) == PackChain(b, square, heur, n)
  {
    AttemptSameSrcs(a, b, square, heur, n);
    RetryBound(heur, n);
    match AttemptOf(a, square, heur, n)
    case Done(_) =>
    case Retry(next) =>
      ChainSameSrcs(a, b, square, next, n + 1);
  }

  /**
   * After a failed attempt the candidates are still sorted with the same
   * keys, so the next attempt sorts nothing and its chain is the one the
   * sorted input would give: the dsts written so far are never read.
   */
  lemma RetryChain(mid: seq<RenderSprite>, sorted: seq<RenderSprite>, square: bool, heur: int, n: int)
    requires Keys(mid) == Keys(sorted) && SortedByArea(mid) && RetryHint(heur, n)
    ensures SortByArea(mid) == mid
    ensures PackChain(SortByArea(mid), square, heur, n) == PackChain(sorted, square, heur, n)
  {
    SortByAreaKeepsSorted(mid);
    KeysSameSrcs(mid, sorted);
    ChainSameSrcs(mid, sorted, square, heur, n);
  }

  /** Equal keys mean equally many candidates with the same src rectangles. */
  lemma KeysSameSrcs(a: seq<RenderSprite>, b: seq<RenderSprite>)
    requires Keys(a) == Keys(b)
    ensures |a| == |b| && forall i :: 0 <= i < |a| ==> a[i].src == b[i].src
  {
    forall i | 0 <= i < |a|
      ensures a[i].src == b[i].src
    {
      assert Keys(a)[i] == Keys(b)[i];
    }
  }

  /** A packed, non-empty candidate list fills a texture of at least 1 x 1 and lies inside it. */
  lemma PackedPlaced(s: seq<RenderSprite>, square: bool, heur: int, n: int, size: Point)
    requires |s| > 0 && PackedBy(s, square, heur, n, size)
    ensures size.x >= 1 && size.y >= 1 && Placed(s, size)
  {
    assert s[0].src.w <= MaxOf(s, WidthOf);
    assert s[0].src.h <= MaxOf(s, HeightOf);
    PlacedInside(s, size, Dsts(s));
  }

  /** Candidates with the same keys, counted with multiplicity, are equally many. */
  lemma KeysLength(a: seq<RenderSprite>, b: seq<RenderSprite>)
    requires multiset(Keys(a)) == multiset(Keys(b))
    ensures |a| == |b|
  {
    assert |Keys(a)| == |multiset(Keys(a))| == |multiset(Keys(b))| == |Keys(b)|;
  }

  /**
   * Export's result: quad i describes sprite i, whose candidate is back at
   * position i of s; each quad has its sprite's own size.
   */
  predicate ExportedQuads(quads: seq<Quad>, s: seq<RenderSprite>, sprites: seq<Sprite>, padding: int,
                          yUp: bool, normalize: bool, width: int, height: int)
  {
    |quads| == |sprites| == |s| && width >= 1 && height >= 1
    && Placed(s, Point(width, height))
    && forall i :: 0 <= i < |quads| ==>
         s[i].sortingOrder == i && s[i].src == PaddedSrc(sprites[i], padding)
         && quads[i] == QuadOf(s[i].dst, padding, yUp, normalize, width, height)
         && quads[i].w == sprites[i].rect.w as real && quads[i].h == sprites[i].rect.h as real
  }

  /**
   * Sorting the packed candidates by sorting order puts candidate i back at
   * position i, so the quads built from them in order describe the sprites
   * in order.
   */
  lemma QuadsDescribeSprites(packed: seq<RenderSprite>, s: seq<RenderSprite>, sprites: seq<Sprite>, padding: int,
                             yUp: bool, normalize: bool, width: int, height: int, quads: seq<Quad>)
    requires width >= 1 && height >= 1 && Placed(packed, Point(width, height))
    requires multiset(Keys(packed)) == multiset(Keys(Candidates(sprites, padding)))
    requires multiset(s) == multiset(packed) && SortedByOrder(s)
    requires |quads| == |s|
    requires forall j :: 0 <= j < |quads| ==> quads[j] == QuadOf(s[j].dst, padding, yUp, normalize, width, height)
    ensures ExportedQuads(quads, s, sprites, padding, yUp, normalize, width, height)
  {
    KeysPermutation(packed, s);
    ExportOrder(s, sprites, padding);
    PlacedPermutation(packed, s, Point(width, height));
  }

  /**
   * What Render leaves in atlas `a` when it starts from the candidates
   * `cands`: with candidates, they are in area order, and when the retry
   * chain from attempt (0, 0) packs them, the texture exists, has that
   * chain's size, every candidate sits where its last attempt put it and
   * the texture holds one copy of each candidate, in order; Bounded
   * candidates are always packed.
   */
  ghost predicate RenderedFrom(a: Atlas, cands: seq<RenderSprite>)
    reads a`renderSprites, a`squareTexture, a`texture, a`width, a`height, a`drawn
  {
    |cands| > 0 ==>
      var c := PackChain(SortByArea(cands), a.squareTexture, 0, 0);
      Keys(a.renderSprites) == Keys(SortByArea(cands)) && SortedByArea(a.renderSprites)
      && (c.0.Packed? ==>
            a.texture.Some? && Point(a.width, a.height) == c.0.size
            && PackedBy(a.renderSprites, a.squareTexture, c.1, c.2, c.0.size)
            && a.drawn == Map(BlitOf, a.renderSprites))
      && (Bounded(cands) ==> c.0.Packed?)
  }

  /**
   * Render's postcondition, read as RenderedFrom: `defined` is whether the
   * chain packed the candidates `cands` Render started from.
   */
  lemma RenderedFromOutcome(a: Atlas, cands: seq<RenderSprite>, defined: bool)
    requires |cands| > 0 ==>
      var c := PackChain(SortByArea(cands), a.squareTexture, 0, 0);
      Keys(a.renderSprites) == Keys(SortByArea(cands)) && SortedByArea(a.renderSprites)
      && (defined <==> c.0.Packed?)
      && (defined ==> Point(a.width, a.height) == c.0.size && PackedBy(a.renderSprites, a.squareTexture, c.1, c.2, c.0.size))
    requires defined && |a.renderSprites| > 0 ==> a.texture.Some? && a.drawn == Map(BlitOf, a.renderSprites)
    requires Bounded(cands) ==> defined
    ensures RenderedFrom(a, cands)
  {
    if |cands| > 0 {
      KeysSameSrcs(a.renderSprites, SortByArea(cands));
    }
  }

  /**
   * The layout Render produces from `cands` when the retry chain from
   * attempt (0, 0) packs them: the texture has the chain's size and
   * `packed`, in area order, holds the chain's first-fit placement.
   */
  ghost predicate ChainLayout(packed: seq<RenderSprite>, cands: seq<RenderSprite>, square: bool, width: int, height: int)
  {
    var c := PackChain(SortByArea(cands), square, 0, 0);
    c.0.Packed? && Point(width, height) == c.0.size
    && Keys(packed) == Keys(SortByArea(cands))
    && PackedBy(packed, square, c.1, c.2, c.0.size)
  }

  /** ChainLayout of the candidates built from atlas a's sprites and padding, in a's texture. */
  ghost predicate LaidOut(a: Atlas, packed: seq<RenderSprite>)
    reads a`sprites, a`padding, a`squareTexture, a`width, a`height
  {
    ChainLayout(packed, Candidates(a.sprites, a.padding), a.squareTexture, a.width, a.height)
  }

  /** A render of `cands` whose chain packs leaves the chain's layout in the atlas. */
  lemma RenderedLayout(a: Atlas, cands: seq<RenderSprite>)
    requires |cands| > 0 && RenderedFrom(a, cands)
    requires PackChain(SortByArea(cands), a.squareTexture, 0, 0).0.Packed?
    ensures ChainLayout(a.renderSprites, cands, a.squareTexture, a.width, a.height)
  {
  }

  /**
   * Rendering again candidates that an earlier Render left sorted gives
   * what rendering the original candidates gives: sorting them changes
   * nothing and the chain reads only the src rectangles.
   */
  lemma RenderedFromSorted(a: Atlas, sorted: seq<RenderSprite>, cands: seq<RenderSprite>)
    requires |cands| > 0 && Keys(sorted) == Keys(SortByArea(cands)) && SortedByArea(sorted)
    requires RenderedFrom(a, sorted)
    ensures RenderedFrom(a, cands)
  {
    SortByAreaKeepsSorted(sorted);
    KeysSameSrcs(sorted, SortByArea(cands));
    ChainSameSrcs(sorted, SortByArea(cands), a.squareTexture, 0, 0);
    if Bounded(cands) {
      BoundedPermutation(cands, SortByArea(cands));
      SameSrcs(sorted, SortByArea(cands));
    }
  }

  class Atlas {
    var width: int
    var height: int
    var sprites: seq<Sprite>
    var texture: Option<TextureInfo>
    /** How many textures this atlas has created; the next one gets this serial. */
    var texturesCreated: nat

    var outputFile: string
    var outputImage: string
    var imageFormat: int
    /** Index of the project exporter used for this atlas. */
    var exporter: nat
    var padding: int
    var paddingMode: int
    var squareTexture: bool
    var normalize: bool
    var yUp: bool

    var animations: seq<Animation>
    /** The group and the frame within it that the editor has selected. */
    var selectedAnim: nat
    var selectedSprite: nat

    var renderSprites: seq<RenderSprite>
    /** The copies drawn into the texture since it was last cleared. */
    var drawn: seq<Blit>

    /**
     * The groups hold every sprite index exactly once, and the texture, when
     * there is one, has the atlas' size; an atlas without a texture has size 0.
     */
    predicate Valid()
      reads this`animations, this`sprites, this`texture, this`width, this`height, this`texturesCreated
    {
      FramesValid() && TextureValid()
    }

    predicate FramesValid()
      reads this`animations, this`sprites
    {
      FramesPartition(animations, |sprites|)
    }

    predicate TextureValid()
      reads this`texture, this`width, this`height, this`texturesCreated
    {
      (texture.None? ==> width == 0 && height == 0)
      && (texture.Some? ==> texture.value.w == width && texture.value.h == height
                            && texture.value.serial < texturesCreated)
    }

    function Settings(): AtlasSettings
      reads this`outputFile, this`outputImage, this`imageFormat, this`squareTexture
      reads this`padding, this`paddingMode, this`normalize, this`yUp
    {
      AtlasSettings(outputFile, outputImage, imageFormat, squareTexture, padding, paddingMode, normalize, yUp)
    }

    /** The default field values of a new atlas; width and height start at 0. */
    constructor ()
      ensures Valid()
      ensures width == 0 && height == 0 && texture == None && texturesCreated == 0
      ensures sprites == [] && animations == [] && renderSprites == [] && drawn == []
      ensures Settings() == DefaultSettings
      ensures exporter == 0 && selectedAnim == 0 && selectedSprite == 0
    {
      width, height := 0, 0;
      sprites := [];
      texture := None;
      texturesCreated := 0;
      outputFile, outputImage := "untitled.atlas", "untitled.png";
      imageFormat, exporter := ImagePng, 0;
      padding, paddingMode := 0, PaddingBleed;
      squareTexture, normalize, yUp := false, false, false;
      animations := [];
      selectedAnim, selectedSprite := 0, 0;
      renderSprites := [];
      drawn := [];
    }

    /** Replaces the texture by a new, cleared one of size w x h. */
    method CreateTexture(w: int, h: int)
      requires TextureValid()
      modifies this`texture, this`texturesCreated, this`width, this`height, this`drawn
      ensures TextureValid()
      ensures texture == Some(TextureInfo(old(texturesCreated), w, h))
      ensures texturesCreated == old(texturesCreated) + 1
      ensures width == w && height == h && drawn == []
    {
      texture := Some(TextureInfo(texturesCreated, w, h));
      texturesCreated := texturesCreated + 1;
      drawn := [];
      width, height := w, h;
    }

    /** Rebuilds the candidates: sprite i padded, with sorting order i. */
    method RenderSprites()
      modifies this`renderSprites
      ensures renderSprites == Candidates(sprites, padding)
    {
      renderSprites := [];
      var i := 0;
      while i < |sprites|
        invariant 0 <= i <= |sprites|
        invariant renderSprites == Candidates(sprites[..i], padding)
      {
        var rs, ops, modeOk := MakeRenderSprite(sprites[i], padding, paddingMode);
        rs := rs.(sortingOrder := i);
        assert Candidates(sprites[..i + 1], padding) == Candidates(sprites[..i], padding) + [rs];
        renderSprites := renderSprites + [rs];
        i := i + 1;
      }
      assert sprites[..i] == sprites;
    }

    /**
     * Adds a sprite to group `anim`, first creating the default group when
     * there is none. The new sprite's index, the old sprite count, becomes
     * the group's last frame and the new candidate's sorting order.
     */
    method AppendSprite(sprite: Sprite, anim: int)
      requires FramesValid()
      requires 0 <= anim < |GroupsForAppend(animations)|
      modifies this`animations, this`sprites, this`renderSprites
      ensures FramesValid()
      ensures sprites == old(sprites) + [sprite]
      ensures animations == WithFrame(old(animations), anim, |old(sprites)|)
      ensures renderSprites == old(renderSprites) + [Candidate(sprite, padding, |old(sprites)|)]
    {
      var n := |sprites|;
      var rs, ops, modeOk := MakeRenderSprite(sprite, padding, paddingMode);
      rs := rs.(sortingOrder := n);
      WithFrameKeepsPartition(animations, n, anim);
      animations := WithFrame(animations, anim, n);
      sprites := sprites + [sprite];
      renderSprites := renderSprites + [rs];
    }

    /**
     * AppendSprite by file name: `loaded` is what LoadSprite made of the
     * file. When it could not be loaded nothing changes and the result is
     * false; otherwise the sprite is appended to group `anim`.
     */
    method AppendSpriteFile(loaded: Option<Sprite>, anim: int) returns (ok: bool)
      requires FramesValid()
      requires 0 <= anim < |GroupsForAppend(animations)|
      modifies this`animations, this`sprites, this`renderSprites
      ensures FramesValid()
      ensures ok == loaded.Some?
      ensures loaded.None? ==> sprites == old(sprites) && animations == old(animations) && renderSprites == old(renderSprites)
      ensures loaded.Some? ==> sprites == old(sprites) + [loaded.value]
      ensures loaded.Some? ==> animations == WithFrame(old(animations), anim, |old(sprites)|)
      ensures loaded.Some? ==> renderSprites == old(renderSprites) + [Candidate(loaded.value, padding, |old(sprites)|)]
    {
      if loaded.None? {
        return false;
      }
      AppendSprite(loaded.value, anim);
      return true;
    }

    /** PackedSize: the estimate of attempt (heur, n), accumulated over the candidates. */
    method PackedSize(heur: int, n: int) returns (size: Point)
      requires InRange(StatsOf(renderSprites), squareTexture, heur, n)
      ensures size == PackedSizeOf(StatsOf(renderSprites), squareTexture, heur, n)
    {
      var area, maxW, maxH := 0, 0, 0;
      var i := 0;
      while i < |renderSprites|
        invariant 0 <= i <= |renderSprites|
        invariant area == SumOf(renderSprites[..i], AreaOf)
        invariant maxW == MaxOf(renderSprites[..i], WidthOf) && maxH == MaxOf(renderSprites[..i], HeightOf)
      {
        var src := renderSprites[i].src;
        assert renderSprites[..i + 1][..i] == renderSprites[..i];
        area := area + src.w * src.h;
        maxW := Max(maxW, src.w);
        maxH := Max(maxH, src.h);
        i := i + 1;
      }
      assert renderSprites[..i] == renderSprites;
      var a := CeilSqrt(area);
      var w := NextPow2(Max(a, maxW));
      var h := NextPow2(Max(Max(a, heur), maxH));
      if squareTexture {
        return Point(h, h);
      }
      if n <= 1 && w == h && (w / 2) * h > area {
        w := w / 2;
      }
      if n <= 1 && w != h && (h / 2) * w > area {
        h := h / 2;
      }
      return Point(w, h);
    }

    /**
     * One pass through the body of Pack: sorts the candidates by area and
     * places them by the corner scan in the container of attempt (heur, n).
     * The result is what AttemptOf says of the sorted list; on a retry the
     * candidates placed before the one that found no row keep the dsts
     * first fit gave them, and the others are as sorting left them.
     */
    method TryAttempt(heur: int, n: int) returns (a: Attempt)
      requires RetryHint(heur, n)
      modifies this`renderSprites
      ensures multiset(Keys(renderSprites)) == multiset(Keys(old(renderSprites)))
      ensures Keys(renderSprites) == Keys(SortByArea(old(renderSprites)))
      ensures SortedByArea(renderSprites)
      ensures a.Done? && a.outcome.Packed? ==> PackedBy(renderSprites, squareTexture, heur, n, a.outcome.size)
      ensures a == AttemptOf(SortByArea(old(renderSprites)), squareTexture, heur, n)
      ensures a.Retry? ==> var s := SortByArea(old(renderSprites));
        var size := PackedSizeOf(StatsOf(s), squareTexture, heur, n);
        RetryState(renderSprites, s, size) && a.next == size.y + 1
      ensures Bounded(old(renderSprites)) ==> Bounded(renderSprites)
      ensures Bounded(old(renderSprites)) && heur <= HeurCap(n) ==>
        !(a.Done? && a.outcome.Undefined?) && (a.Retry? ==> a.next <= HeurCap(n + 1))
    {
      ghost var input := renderSprites;
      renderSprites := SortByArea(renderSprites);
      KeysPermutation(input, renderSprites);
      if Bounded(input) {
        BoundedPermutation(input, renderSprites);
      }
      a := PlaceSorted(heur, n);
    }

    /**
     * The part of TryAttempt after sorting: the candidates are already in
     * area order, and the attempt is what AttemptOf says of them.
     */
    method PlaceSorted(heur: int, n: int) returns (a: Attempt)
      requires RetryHint(heur, n) && SortedByArea(renderSprites)
      modifies this`renderSprites
      ensures Keys(renderSprites) == Keys(old(renderSprites)) && SortedByArea(renderSprites)
      ensures a == AttemptOf(old(renderSprites), squareTexture, heur, n)
      ensures a.Done? && a.outcome.Packed? ==> PackedBy(renderSprites, squareTexture, heur, n, a.outcome.size)
      ensures a.Retry? ==>
        var size := PackedSizeOf(StatsOf(old(renderSprites)), squareTexture, heur, n);
        RetryState(renderSprites, old(renderSprites), size) && a.next == size.y + 1
      ensures Bounded(old(renderSprites)) ==> Bounded(renderSprites)
      ensures Bounded(old(renderSprites)) && heur <= HeurCap(n) ==>
        !(a.Done? && a.outcome.Undefined?) && (a.Retry? ==> a.next <= HeurCap(n + 1))
    {
      var s := renderSprites;
      if Bounded(s) && heur <= HeurCap(n) {
        BoundedInRange(s, squareTexture, heur, n);
      }
      if !NonEmptySizes(s) || !InRange(StatsOf(s), squareTexture, heur, n) {
        return Done(Undefined);
      }
      var size := PackedSize(heur, n);
      var out;
      a, out := PlaceAttempt(s, squareTexture, heur, n, size);
      renderSprites := out;
    }

    /**
     * Pack: sorts the candidates by area and places them by the corner scan
     * in the container of attempt (heur, n); when a candidate runs out of
     * rows it starts over with attempt (size.y + 1, n + 1). The outcome and
     * the ghost results, the attempt that ended the chain, are those of
     * PackChain. An attempt is retried exactly when it fails, and candidates
     * of Bounded size are always packed.
     */
    method Pack(heur: int, n: int) returns (r: PackOutcome, ghost lastHeur: int, ghost lastN: int)
      requires RetryHint(heur, n)
      modifies this`renderSprites
      decreases 512 - n
      ensures multiset(Keys(renderSprites)) == multiset(Keys(old(renderSprites)))
      ensures Keys(renderSprites) == Keys(SortByArea(old(renderSprites)))
      ensures SortedByArea(renderSprites)
      ensures n <= lastN
      ensures r.Packed? ==> PackedBy(renderSprites, squareTexture, lastHeur, lastN, r.size)
      ensures (r, lastHeur, lastN) == PackChain(SortByArea(old(renderSprites)), squareTexture, heur, n)
      ensures lastN > n <==> AttemptFails(SortByArea(old(renderSprites)), squareTexture, heur, n)
      ensures Bounded(old(renderSprites)) && heur <= HeurCap(n) ==> r.Packed?
    {
      RetryBound(heur, n);
      var a := TryAttempt(heur, n);
      match a
      case Done(outcome) =>
        r, lastHeur, lastN := outcome, heur, n;
      case Retry(next) =>
        RetryChain(renderSprites, SortByArea(old(renderSprites)), squareTexture, next, n + 1);
        r, lastHeur, lastN := Pack(next, n + 1);
    }

    /**
     * Render: with candidates, packs them, recreates the texture exactly
     * when the packed size differs from the current one, clears it and
     * draws every candidate at its placement. `defined` is false when Pack's
     * outcome is undefined, which Bounded candidates never meet.
     */
    method Render() returns (defined: bool)
      requires TextureValid()
      modifies this`renderSprites, this`width, this`height, this`texture, this`texturesCreated, this`drawn
      ensures TextureValid()
      ensures |renderSprites| == |old(renderSprites)|
      ensures multiset(Keys(renderSprites)) == multiset(Keys(old(renderSprites)))
      ensures |old(renderSprites)| == 0 ==> defined && renderSprites == old(renderSprites) && drawn == old(drawn)
      ensures |old(renderSprites)| == 0 ==>
        width == old(width) && height == old(height) && texture == old(texture) && texturesCreated == old(texturesCreated)
      ensures |old(renderSprites)| > 0 ==>
        Keys(renderSprites) == Keys(SortByArea(old(renderSprites))) && SortedByArea(renderSprites)
      ensures |old(renderSprites)| > 0 ==>
        var c := PackChain(SortByArea(old(renderSprites)), squareTexture, 0, 0);
        (defined <==> c.0.Packed?)
        && (defined ==> Point(width, height) == c.0.size && PackedBy(renderSprites, squareTexture, c.1, c.2, c.0.size))
      ensures defined && |renderSprites| > 0 ==>
        width >= 1 && height >= 1 && texture.Some?
        && Placed(renderSprites, Point(width, height)) && drawn == Map(BlitOf, renderSprites)
      ensures defined && (width != old(width) || height != old(height)) ==>
        texture == Some(TextureInfo(old(texturesCreated), width, height))
        && texturesCreated == old(texturesCreated) + 1
      ensures width == old(width) && height == old(height) ==>
        texture == old(texture) && texturesCreated == old(texturesCreated)
      ensures Bounded(old(renderSprites)) ==> defined
    {
      if |renderSprites| == 0 {
        return true;
      }
      defined := RenderCandidates();
    }

    /** Pack as Render calls it, from attempt (0, 0): what Render needs of its result. */
    method PackFromStart() returns (r: PackOutcome, ghost lastHeur: int, ghost lastN: int)
      modifies this`renderSprites
      ensures multiset(Keys(renderSprites)) == multiset(Keys(old(renderSprites)))
      ensures Keys(renderSprites) == Keys(SortByArea(old(renderSprites))) && SortedByArea(renderSprites)
      ensures (r, lastHeur, lastN) == PackChain(SortByArea(old(renderSprites)), squareTexture, 0, 0)
      ensures r.Packed? ==> PackedBy(renderSprites, squareTexture, lastHeur, lastN, r.size)
      ensures Bounded(old(renderSprites)) ==> r.Packed?
    {
      r, lastHeur, lastN := Pack(0, 0);
    }

    /** Render when there are candidates: packs them and, when packed, presents them. */
    method RenderCandidates() returns (defined: bool)
      requires TextureValid() && |renderSprites| > 0
      modifies this`renderSprites, this`width, this`height, this`texture, this`texturesCreated, this`drawn
      ensures TextureValid()
      ensures |renderSprites| == |old(renderSprites)|
      ensures multiset(Keys(renderSprites)) == multiset(Keys(old(renderSprites)))
      ensures Keys(renderSprites) == Keys(SortByArea(old(renderSprites))) && SortedByArea(renderSprites)
      ensures var c := PackChain(SortByArea(old(renderSprites)), squareTexture, 0, 0);
        (defined <==> c.0.Packed?)
        && (defined ==> Point(width, height) == c.0.size && PackedBy(renderSprites, squareTexture, c.1, c.2, c.0.size))
      ensures defined ==>
        width >= 1 && height >= 1 && texture.Some?
        && Placed(renderSprites, Point(width, height)) && drawn == Map(BlitOf, renderSprites)
      ensures defined && (width != old(width) || height != old(height)) ==>
        texture == Some(TextureInfo(old(texturesCreated), width, height))
        && texturesCreated == old(texturesCreated) + 1
      ensures width == old(width) && height == old(height) ==>
        texture == old(texture) && texturesCreated == old(texturesCreated)
      ensures Bounded(old(renderSprites)) ==> defined
    {
      var r;
      ghost var lastHeur, lastN;
      ghost var before := renderSprites;
      r, lastHeur, lastN := PackFromStart();
      KeysLength(renderSprites, before);
      if r.Undefined? {
        return false;
      }
      PackedPlaced(renderSprites, squareTexture, lastHeur, lastN, r.size);
      Present(r.size);
      return true;
    }

    /**
     * The drawing half of Render: recreates the texture when `size` differs
     * from the current one, then clears it and draws every candidate.
     */
    method Present(size: Point)
      requires TextureValid()
      modifies this`width, this`height, this`texture, this`texturesCreated, this`drawn
      ensures TextureValid()
      ensures width == size.x && height == size.y && drawn == Map(BlitOf, renderSprites)
      ensures size.x != old(width) || size.y != old(height) ==>
        texture == Some(TextureInfo(old(texturesCreated), width, height))
        && texturesCreated == old(texturesCreated) + 1
      ensures size.x == old(width) && size.y == old(height) ==>
        texture == old(texture) && texturesCreated == old(texturesCreated)
    {
      if size.x != width || size.y != height {
        CreateTexture(size.x, size.y);
      }
      drawn := [];
      var i := 0;
      while i < |renderSprites|
        modifies this`drawn
        invariant 0 <= i <= |renderSprites|
        invariant drawn == Map(BlitOf, renderSprites[..i])
      {
        drawn := drawn + [BlitOf(renderSprites[i])];
        i := i + 1;
      }
      assert renderSprites[..i] == renderSprites;
    }

    /**
     * The quads Export hands to the exporter: quad j is candidate j's
     * placement without its padding, flipped when yUp and scaled to the
     * texture when normalize.
     */
    method Quads() returns (quads: seq<Quad>)
      requires normalize ==> width != 0 && height != 0
      ensures |quads| == |renderSprites|
      ensures forall j :: 0 <= j < |quads| ==>
        quads[j] == QuadOf(renderSprites[j].dst, padding, yUp, normalize, width, height)
    {
      quads := [];
      var i := 0;
      while i < |renderSprites|
        invariant 0 <= i <= |renderSprites| && |quads| == i
        invariant forall j :: 0 <= j < i ==>
          quads[j] == QuadOf(renderSprites[j].dst, padding, yUp, normalize, width, height)
      {
        var dst := renderSprites[i].dst;
        var x := (dst.x + padding) as real;
        var y := (dst.y + padding) as real;
        var w := (dst.w - 2 * padding) as real;
        var h := (dst.h - 2 * padding) as real;
        if yUp {
          y := height as real - y - h;
        }
        if normalize {
          x := x / width as real;
          y := y / height as real;
        }
        quads := quads + [Quad(x, y, w, h)];
        i := i + 1;
      }
    }

    /**
     * RenderSprites followed by Render, as Export and the editing actions
     * do once the sprites or settings have changed: the candidates are
     * rebuilt from the sprites and packed again, and the atlas is what
     * rendering them gives.
     */
    method Rerender() returns (defined: bool)
      requires TextureValid()
      modifies this`renderSprites, this`width, this`height, this`texture, this`texturesCreated, this`drawn
      ensures TextureValid()
      ensures multiset(Keys(renderSprites)) == multiset(Keys(Candidates(sprites, padding)))
      ensures RenderedFrom(this, Candidates(sprites, padding))
      ensures |sprites| > 0 ==>
        (defined <==> PackChain(SortByArea(Candidates(sprites, padding)), squareTexture, 0, 0).0.Packed?)
      ensures defined && |renderSprites| > 0 ==>
        width >= 1 && height >= 1 && texture.Some? && Placed(renderSprites, Point(width, height))
      ensures Bounded(Candidates(sprites, padding)) ==> defined
    {
      RenderSprites();
      defined := Render();
      RenderedFromOutcome(this, Candidates(sprites, padding), defined);
    }

    /**
     * Rerender as Export uses it: when the candidates are packed, the
     * texture exists, they are placed inside it and they hold the layout of
     * the retry chain from attempt (0, 0).
     */
    method RerenderLaidOut() returns (defined: bool)
      requires TextureValid()
      modifies this`renderSprites, this`width, this`height, this`texture, this`texturesCreated, this`drawn
      ensures TextureValid()
      ensures multiset(Keys(renderSprites)) == multiset(Keys(Candidates(sprites, padding)))
      ensures defined && |renderSprites| > 0 ==>
        width >= 1 && height >= 1 && texture.Some? && Placed(renderSprites, Point(width, height))
        && ChainLayout(renderSprites, Candidates(sprites, padding), squareTexture, width, height)
      ensures Bounded(Candidates(sprites, padding)) ==> defined
    {
      defined := Rerender();
      if defined && |renderSprites| > 0 {
        KeysLength(renderSprites, Candidates(sprites, padding));
        RenderedLayout(this, Candidates(sprites, padding));
      }
    }

    /**
     * Export: rebuilds and renders the candidates; with none, with no
     * texture or with an undefined pack it returns false without calling
     * the exporter, and otherwise hands on to ExportRendered. The ghost
     * `packed` is the candidate list as Render left it: on success the
     * texture has the size the retry chain from attempt (0, 0) reaches,
     * `packed` holds that chain's first-fit layout, and the candidates the
     * quads are built from are `packed` put back in insertion order.
     */
    method Export(fn: ExporterFn, canOpen: bool) returns (ok: bool, quads: seq<Quad>, out: Option<Written>,
                                                          ghost packed: seq<RenderSprite>)
      requires TextureValid()
      modifies this`renderSprites, this`width, this`height, this`texture, this`texturesCreated, this`drawn
      ensures TextureValid()
      ensures ok == out.Some?
      ensures ok ==> canOpen && |sprites| > 0
      ensures |sprites| > 0 && Bounded(Candidates(sprites, padding)) ==> ok == canOpen
      ensures quads != [] ==> ExportedQuads(quads, renderSprites, sprites, padding, yUp, normalize, width, height)
      ensures ok ==> quads != []
      ensures out.Some? ==> out.value.path == CString(outputFile) && (out.value.AtlasFile? <==> fn == AtlasFileExporter)
      ensures out.Some? && out.value.AtlasFile? ==>
        |quads| <= |sprites| && AtlasFileContent(out.value.lines, outputImage, normalize, sprites, quads)
      ensures out.Some? && out.value.JsonFile? ==>
        |quads| <= |sprites| && JsonContent(out.value.pieces, outputImage, sprites, quads)
      ensures ok ==> LaidOut(this, packed) && multiset(renderSprites) == multiset(packed)
    {
      var defined := RerenderLaidOut();
      packed := renderSprites;
      if !defined || |renderSprites| == 0 || texture.None? {
        return false, [], None, packed;
      }
      ok, quads, out := ExportRendered(fn, canOpen);
    }

    /** Export's sort: the candidates go back to insertion order; the layout facts stay as they were. */
    method RestoreOrder()
      modifies this`renderSprites
      ensures renderSprites == SortByOrder(old(renderSprites))
      ensures forall packed :: LaidOut(this, packed) == old(LaidOut(this, packed))
    {
      renderSprites := SortByOrder(renderSprites);
    }

    /**
     * The rest of Export once the candidates are packed and drawn: restores
     * their insertion order, builds one quad per sprite and runs the
     * exporter on them.
     */
    method ExportRendered(fn: ExporterFn, canOpen: bool) returns (ok: bool, quads: seq<Quad>, out: Option<Written>)
      requires TextureValid()
      requires width >= 1 && height >= 1 && |renderSprites| > 0 && Placed(renderSprites, Point(width, height))
      requires multiset(Keys(renderSprites)) == multiset(Keys(Candidates(sprites, padding)))
      modifies this`renderSprites
      ensures TextureValid()
      ensures ok == canOpen && ok == out.Some? && quads != []
      ensures multiset(renderSprites) == multiset(old(renderSprites)) && SortedByOrder(renderSprites)
      ensures forall packed :: LaidOut(this, packed) == old(LaidOut(this, packed))
      ensures ExportedQuads(quads, renderSprites, sprites, padding, yUp, normalize, width, height)
      ensures out.Some? ==> out.value.path == CString(outputFile) && (out.value.AtlasFile? <==> fn == AtlasFileExporter)
      ensures out.Some? && out.value.AtlasFile? ==> AtlasFileContent(out.value.lines, outputImage, normalize, sprites, quads)
      ensures out.Some? && out.value.JsonFile? ==> JsonContent(out.value.pieces, outputImage, sprites, quads)
    {
      ghost var packed := renderSprites;
      RestoreOrder();
      quads := Quads();
      QuadsDescribeSprites(packed, renderSprites, sprites, padding, yUp, normalize, width, height, quads);
      ok, out := RunExporter(fn, outputFile, outputImage, normalize, sprites, quads, canOpen);
    }
  }
}
