/**
 * One packing attempt: order the padded candidates by area, then place each
 * at the first position, scanning rows top to bottom and columns left to
 * right, whose four corner cells are free in the occupancy mask, and mark
 * its whole rectangle as occupied.
 *
 * The corner test is all the packer checks, so a placement is described by
 * the corner property (`FirstFit`), not by pairwise disjointness; the lemma
 * `CornerTestAllowsOverlap` exhibits two placed rectangles that overlap.
 */
module Placement {
  import opened Bits
  import opened Geometry
  import opened Image
  import opened Sizing

  /** Non-increasing candidate area, the order the packer's comparator asks for. */
  predicate SortedByArea(s: seq<RenderSprite>)
  {
    forall i, j :: 0 <= i < j < |s| ==> AreaOf(s[i]) >= AreaOf(s[j])
  }

  /** Putting s[0] back in front of the insertion into s[1..] keeps the order. */
  lemma InsertByAreaHead(x: RenderSprite, s: seq<RenderSprite>, t: seq<RenderSprite>)
    requires SortedByArea(s) && |s| > 0 && !(AreaOf(x) >= AreaOf(s[0]))
    requires SortedByArea(t) && multiset(t) == multiset(s[1..]) + multiset{x}
    ensures SortedByArea([s[0]] + t) && multiset([s[0]] + t) == multiset(s) + multiset{x}
  {
    assert s == [s[0]] + s[1..];
    forall j | 0 <= j < |t|
      ensures AreaOf(s[0]) >= AreaOf(t[j])
    {
      assert t[j] in multiset(t);
      if t[j] != x {
        assert t[j] in multiset(s[1..]);
      }
    }
  }

  function InsertByArea(x: RenderSprite, s: seq<RenderSprite>): (r: seq<RenderSprite>)
    requires SortedByArea(s)
    ensures SortedByArea(r)
    ensures multiset(r) == multiset(s) + multiset{x}
  {
    if |s| == 0 then [x]
    else if AreaOf(x) >= AreaOf(s[0]) then [x] + s
    else
      var t := InsertByArea(x, s[1..]);
      InsertByAreaHead(x, s, t);
      [s[0]] + t
  }

  /**
   * The order the packer's sort leaves the candidates in: a permutation
   * ordered by non-increasing area. The C++ sort is not stable, so nothing is
   * promised about the order of candidates of equal area.
   */
  function SortByArea(s: seq<RenderSprite>): (r: seq<RenderSprite>)
    ensures SortedByArea(r)
    ensures multiset(r) == multiset(s)
  {
    if |s| == 0 then []
    else
      assert s == [s[0]] + s[1..];
      InsertByArea(s[0], SortByArea(s[1..]))
  }

  /** Candidates already in area order are left exactly as they are. */
  lemma {:induction false} SortByAreaKeepsSorted(s: seq<RenderSprite>)
    requires SortedByArea(s)
    ensures SortByArea(s) == s
  {
    if |s| > 0 {
      var t := s[1..];
      assert forall i :: 0 <= i < |t| ==> t[i] == s[i + 1];
      SortByAreaKeepsSorted(t);
      assert s == [s[0]] + t;
    }
  }

  /** The mask cell (px, py) is set: some placed rectangle covers it. */
  predicate Occupied(placed: seq<Rect>, px: int, py: int)
  {
    exists j :: 0 <= j < |placed| && placed[j].Covers(px, py)
  }

  lemma OccupiedAppend(placed: seq<Rect>, r: Rect, px: int, py: int)
    ensures Occupied(placed + [r], px, py) <==> Occupied(placed, px, py) || r.Covers(px, py)
  {
    if Occupied(placed, px, py) {
      var j :| 0 <= j < |placed| && placed[j].Covers(px, py);
      assert (placed + [r])[j] == placed[j];
    }
    if r.Covers(px, py) {
      assert (placed + [r])[|placed|] == r;
    }
  }

  /** The four corner cells of the w x h rectangle at (x, y) are free. */
  predicate CornersClear(placed: seq<Rect>, x: int, y: int, w: int, h: int)
  {
    !Occupied(placed, x, y) && !Occupied(placed, x, y + h - 1)
    && !Occupied(placed, x + w - 1, y) && !Occupied(placed, x + w - 1, y + h - 1)
  }

  /** (x, y) is a position the scan accepts for a w x h candidate. */
  predicate Fits(placed: seq<Rect>, w: int, h: int, size: Point, x: int, y: int)
  {
    0 <= x <= size.x - w && 0 <= y && y + h <= size.y && CornersClear(placed, x, y, w, h)
  }

  /** The scan visits (x1, y1) before (x2, y2): rows first, then columns. */
  predicate ScanBefore(x1: int, y1: int, x2: int, y2: int)
  {
    y1 < y2 || (y1 == y2 && x1 < x2)
  }

  /** (x, y) is the first position the scan accepts. */
  ghost predicate FirstFit(placed: seq<Rect>, w: int, h: int, size: Point, x: int, y: int)
  {
    Fits(placed, w, h, size, x, y)
    && forall x', y' :: Fits(placed, w, h, size, x', y') ==> !ScanBefore(x', y', x, y)
  }

  /** The scan accepts no position at all. */
  ghost predicate NoRoom(placed: seq<Rect>, w: int, h: int, size: Point)
  {
    forall x, y :: !Fits(placed, w, h, size, x, y)
  }

  /**
   * dsts places the first |dsts| candidates of s, each of its own size at the
   * first position the scan accepts given the ones placed before it.
   */
  ghost predicate FirstFitPlacement(s: seq<RenderSprite>, size: Point, dsts: seq<Rect>)
  {
    |dsts| <= |s|
    && forall i :: 0 <= i < |dsts| ==>
         dsts[i].w == s[i].src.w && dsts[i].h == s[i].src.h
         && FirstFit(dsts[..i], s[i].src.w, s[i].src.h, size, dsts[i].x, dsts[i].y)
  }

  /** Every candidate has at least one pixel each way. */
  predicate NonEmptySizes(s: seq<RenderSprite>)
  {
    forall i :: 0 <= i < |s| ==> s[i].src.w >= 1 && s[i].src.h >= 1
  }

  lemma PlacementPrefix(s: seq<RenderSprite>, size: Point, dsts: seq<Rect>, k: int)
    requires FirstFitPlacement(s, size, dsts) && 0 <= k <= |dsts|
    ensures FirstFitPlacement(s, size, dsts[..k])
  {
    forall i | 0 <= i < k
      ensures dsts[..k][..i] == dsts[..i]
    {
    }
  }

  /** Every placed rectangle lies inside the container. */
  lemma PlacedInside(s: seq<RenderSprite>, size: Point, dsts: seq<Rect>)
    requires FirstFitPlacement(s, size, dsts)
    ensures forall i :: 0 <= i < |dsts| ==> dsts[i].Within(Rect(0, 0, size.x, size.y))
  {
  }

  /**
   * One packing attempt on the sorted candidates s in a size.x x size.y
   * container with a zeroed occupancy mask. It either places every candidate
   * (ok), or stops at the first candidate for which the scan runs out of rows.
   * Every candidate has at least one pixel each way: with a zero width or
   * height the C++ corner test reads the mask at column ox - 1 or row
   * oy - 1, outside the mask when the candidate is at the container's edge.
   */
  method Place(s: seq<RenderSprite>, size: Point) returns (dsts: seq<Rect>, ok: bool)
    requires NonEmptySizes(s)
    requires size.x >= 0 && size.y >= 0
    ensures FirstFitPlacement(s, size, dsts)
    ensures ok <==> |dsts| == |s|
    ensures !ok ==> NoRoom(dsts, s[|dsts|].src.w, s[|dsts|].src.h, size)
    ensures forall i :: 0 <= i < |dsts| ==> dsts[i].Within(Rect(0, 0, size.x, size.y))
  {
    var mask := new bool[size.x, size.y]((_, _) => false);
    dsts := [];
    ok := true;
    var i := 0;
    while i < |s|
      invariant 0 <= i <= |s| && |dsts| == i
      invariant FirstFitPlacement(s, size, dsts)
      invariant forall a, b :: 0 <= a < size.x && 0 <= b < size.y ==> (mask[a, b] <==> Occupied(dsts, a, b))
    {
      var w, h := s[i].src.w, s[i].src.h;
      var ox, oy := 0, 0;
      while true
        invariant 0 <= oy
        invariant forall x', y' :: 0 <= y' < oy ==> !Fits(dsts, w, h, size, x', y')
        decreases size.y - oy
      {
        if oy + h > size.y {
          ok := false;
          PlacedInside(s, size, dsts);
          return;
        }
        ox := 0;
        var packed := false;
        while ox <= size.x - w
          invariant 0 <= ox && !packed
          invariant forall x' :: x' < ox ==> !Fits(dsts, w, h, size, x', oy)
          decreases size.x - w - ox
        {
          var c := mask[ox, oy] || mask[ox, oy + h - 1] || mask[ox + w - 1, oy] || mask[ox + w - 1, oy + h - 1];
          if !c {
            packed := true;
            break;
          }
          ox := ox + 1;
        }
        if packed {
          break;
        }
        oy := oy + 1;
      }
      assert FirstFit(dsts, w, h, size, ox, oy);
      MarkRect(mask, dsts, ox, oy, w, h);
      forall a, b | 0 <= a < size.x && 0 <= b < size.y
        ensures mask[a, b] <==> Occupied(dsts + [Rect(ox, oy, w, h)], a, b)
      {
        OccupiedAppend(dsts, Rect(ox, oy, w, h), a, b);
      }
      assert (dsts + [Rect(ox, oy, w, h)])[..i] == dsts;
      assert forall k :: 0 <= k < i ==> (dsts + [Rect(ox, oy, w, h)])[..k] == dsts[..k];
      dsts := dsts + [Rect(ox, oy, w, h)];
      i := i + 1;
    }
    PlacedInside(s, size, dsts);
  }

  /** Sets every mask cell of the w x h rectangle at (ox, oy). */
  method MarkRect(mask: array2<bool>, ghost placed: seq<Rect>, ox: int, oy: int, w: int, h: int)
    requires 0 <= ox && ox + w <= mask.Length0 && 0 <= oy && oy + h <= mask.Length1 && w >= 0 && h >= 0
    requires forall a, b :: 0 <= a < mask.Length0 && 0 <= b < mask.Length1 ==> (mask[a, b] <==> Occupied(placed, a, b))
    modifies mask
    ensures forall a, b :: 0 <= a < mask.Length0 && 0 <= b < mask.Length1 ==>
              (mask[a, b] <==> Occupied(placed, a, b) || Rect(ox, oy, w, h).Covers(a, b))
  {
    var y := oy;
    while y < oy + h
      invariant oy <= y <= oy + h
      invariant forall a, b :: 0 <= a < mask.Length0 && 0 <= b < mask.Length1 ==>
                  (mask[a, b] <==> Occupied(placed, a, b) || Rect(ox, oy, w, y - oy).Covers(a, b))
    {
      var x := ox;
      while x < ox + w
        invariant ox <= x <= ox + w
        invariant forall a, b :: 0 <= a < mask.Length0 && 0 <= b < mask.Length1 ==>
                    (mask[a, b] <==> Occupied(placed, a, b) || Rect(ox, oy, w, y - oy).Covers(a, b)
                                     || Rect(ox, y, x - ox, 1).Covers(a, b))
      {
        mask[x, y] := true;
        x := x + 1;
      }
      y := y + 1;
    }
  }

  /** The scan order is total, so the first accepted position is unique. */
  lemma FirstFitUnique(placed: seq<Rect>, w: int, h: int, size: Point, x1: int, y1: int, x2: int, y2: int)
    requires FirstFit(placed, w, h, size, x1, y1) && FirstFit(placed, w, h, size, x2, y2)
    ensures x1 == x2 && y1 == y2
  {
    assert !ScanBefore(x1, y1, x2, y2);
    assert !ScanBefore(x2, y2, x1, y1);
  }

  /** An attempt is deterministic: two placements of the same length are equal. */
  lemma {:induction false} PlacementUnique(s: seq<RenderSprite>, size: Point, d1: seq<Rect>, d2: seq<Rect>)
    requires FirstFitPlacement(s, size, d1) && FirstFitPlacement(s, size, d2) && |d1| == |d2|
    ensures d1 == d2
    decreases |d1|
  {
    if |d1| > 0 {
      var k := |d1| - 1;
      PlacementPrefix(s, size, d1, k);
      PlacementPrefix(s, size, d2, k);
      PlacementUnique(s, size, d1[..k], d2[..k]);
      FirstFitUnique(d1[..k], s[k].src.w, s[k].src.h, size, d1[k].x, d1[k].y, d2[k].x, d2[k].y);
      assert d1 == d1[..k] + [d1[k]] && d2 == d2[..k] + [d2[k]];
    }
  }

  /**
   * If an attempt stopped on a candidate (`NoRoom`), no placement of all
   * candidates exists in that container.
   */
  lemma {:induction false} StoppedMeansNoFullPlacement(s: seq<RenderSprite>, size: Point, dsts: seq<Rect>, full: seq<Rect>)
    requires FirstFitPlacement(s, size, dsts) && |dsts| < |s|
    requires NoRoom(dsts, s[|dsts|].src.w, s[|dsts|].src.h, size)
    ensures !(FirstFitPlacement(s, size, full) && |full| == |s|)
  {
    if FirstFitPlacement(s, size, full) && |full| == |s| {
      var k := |dsts|;
      PlacementPrefix(s, size, full, k);
      PlacementUnique(s, size, full[..k], dsts);
      assert false;
    }
  }

  /**
   * The attempt stopped at candidate |d|: d places the candidates before
   * it by first fit, and the scan finds no position for it.
   */
  ghost predicate StoppedPlacement(s: seq<RenderSprite>, size: Point, d: seq<Rect>)
  {
    FirstFitPlacement(s, size, d) && |d| < |s| && NoRoom(d, s[|d|].src.w, s[|d|].src.h, size)
  }

  /**
   * Where an attempt stops, and what it has placed by then, is determined
   * by the candidates and the container.
   */
  lemma {:induction false} StoppedPlacementUnique(s: seq<RenderSprite>, size: Point, d1: seq<Rect>, d2: seq<Rect>)
    requires StoppedPlacement(s, size, d1) && StoppedPlacement(s, size, d2)
    ensures d1 == d2
  {
    if |d1| < |d2| {
      StoppedBeforeLonger(s, size, d1, d2);
    } else if |d2| < |d1| {
      StoppedBeforeLonger(s, size, d2, d1);
    } else {
      PlacementUnique(s, size, d1, d2);
    }
  }

  /** A placement cannot go past the candidate where an attempt stops. */
  lemma StoppedBeforeLonger(s: seq<RenderSprite>, size: Point, d: seq<Rect>, longer: seq<Rect>)
    requires StoppedPlacement(s, size, d) && FirstFitPlacement(s, size, longer)
    ensures |longer| <= |d|
  {
    if |longer| > |d| {
      var k := |d|;
      PlacementPrefix(s, size, longer, k);
      PlacementUnique(s, size, longer[..k], d);
      assert false;
    }
  }

  /** The lowest edge of the placed rectangles (0 when none are placed). */
  function Bottom(placed: seq<Rect>): (r: int)
    ensures r >= 0
  {
    if |placed| == 0 then 0
    else Max(Bottom(placed[..|placed| - 1]), placed[|placed| - 1].y + placed[|placed| - 1].h)
  }

  /** No placed rectangle reaches below Bottom. */
  lemma {:induction false} BelowBottomIsFree(placed: seq<Rect>, px: int, py: int)
    requires py >= Bottom(placed)
    ensures !Occupied(placed, px, py)
  {
    if |placed| > 0 {
      var t := placed[..|placed| - 1];
      BelowBottomIsFree(t, px, py);
      forall j | 0 <= j < |placed|
        ensures !placed[j].Covers(px, py)
      {
        if j < |t| {
          assert placed[j] == t[j];
        }
      }
    }
  }

  lemma {:induction false} SumOfPrefix(s: seq<RenderSprite>, k: int, f: RenderSprite -> int)
    requires 0 <= k <= |s|
    requires forall i :: 0 <= i < |s| ==> f(s[i]) >= 0
    ensures SumOf(s[..k], f) <= SumOf(s, f)
    decreases |s|
  {
    if k < |s| {
      assert s[..|s| - 1][..k] == s[..k];
      SumOfPrefix(s[..|s| - 1], k, f);
    } else {
      assert s[..k] == s;
    }
  }

  /**
   * Each candidate is placed no lower than the bottom of the ones before it,
   * so when the container is as wide as the widest candidate and as tall as
   * all heights together, the placed ones end above the sum of their heights.
   */
  lemma {:induction false} BottomWithinStack(s: seq<RenderSprite>, size: Point, dsts: seq<Rect>)
    requires FirstFitPlacement(s, size, dsts) && NonEmptySizes(s)
    requires size.x >= MaxOf(s, WidthOf) && size.y >= SumOf(s, HeightOf)
    ensures Bottom(dsts) <= SumOf(s[..|dsts|], HeightOf)
    decreases |dsts|
  {
    if |dsts| > 0 {
      var k := |dsts| - 1;
      var t := dsts[..k];
      PlacementPrefix(s, size, dsts, k);
      BottomWithinStack(s, size, t);
      var w, h := s[k].src.w, s[k].src.h;
      var b := Bottom(t);
      assert s[..k + 1][..k] == s[..k];
      assert SumOf(s[..k + 1], HeightOf) == SumOf(s[..k], HeightOf) + h;
      SumOfPrefix(s, k + 1, HeightOf);
      assert WidthOf(s[k]) <= MaxOf(s, WidthOf);
      BelowBottomIsFree(t, 0, b);
      BelowBottomIsFree(t, 0, b + h - 1);
      BelowBottomIsFree(t, w - 1, b);
      BelowBottomIsFree(t, w - 1, b + h - 1);
      assert Fits(t, w, h, size, 0, b);
      assert dsts[k].y <= b;
    }
  }

  /**
   * The fit guarantee: a container as wide as the widest candidate and as
   * tall as all heights together always takes every candidate, since the
   * left edge below everything placed so far is always accepted.
   */
  lemma StackingFits(s: seq<RenderSprite>, size: Point, dsts: seq<Rect>)
    requires FirstFitPlacement(s, size, dsts) && NonEmptySizes(s) && |dsts| < |s|
    requires size.x >= MaxOf(s, WidthOf) && size.y >= SumOf(s, HeightOf)
    ensures Fits(dsts, s[|dsts|].src.w, s[|dsts|].src.h, size, 0, Bottom(dsts))
    ensures !NoRoom(dsts, s[|dsts|].src.w, s[|dsts|].src.h, size)
  {
    var k := |dsts|;
    var w, h := s[k].src.w, s[k].src.h;
    var b := Bottom(dsts);
    BottomWithinStack(s, size, dsts);
    assert s[..k + 1][..k] == s[..k];
    assert SumOf(s[..k + 1], HeightOf) == SumOf(s[..k], HeightOf) + h;
    SumOfPrefix(s, k + 1, HeightOf);
    assert WidthOf(s[k]) <= MaxOf(s, WidthOf);
    BelowBottomIsFree(dsts, 0, b);
    BelowBottomIsFree(dsts, 0, b + h - 1);
    BelowBottomIsFree(dsts, w - 1, b);
    BelowBottomIsFree(dsts, w - 1, b + h - 1);
  }

  /** Four unpadded candidates: 6 x 6, 6 x 4, 2 x 8 and 10 x 1. */
  function OverlapExample(): seq<RenderSprite>
  {
    [ RenderSprite(Rect(0, 0, 6, 6), Rect(0, 0, 0, 0), 0),
      RenderSprite(Rect(0, 0, 6, 4), Rect(0, 0, 0, 0), 1),
      RenderSprite(Rect(0, 0, 2, 8), Rect(0, 0, 0, 0), 2),
      RenderSprite(Rect(0, 0, 10, 1), Rect(0, 0, 0, 0), 3) ]
  }

  function OverlapExamplePlacement(): seq<Rect>
  {
    [Rect(0, 0, 6, 6), Rect(6, 0, 6, 4), Rect(12, 0, 2, 8), Rect(6, 4, 10, 1)]
  }

  lemma OverlapExampleIsFirstFit()
    ensures FirstFitPlacement(OverlapExample(), Point(16, 16), OverlapExamplePlacement())
  {
    var s, d, size := OverlapExample(), OverlapExamplePlacement(), Point(16, 16);
    assert d[..0] == [];
    assert FirstFit(d[..0], 6, 6, size, 0, 0);
    var p1 := d[..1];
    forall x', y' | 0 <= x' < 6 && y' == 0
      ensures Occupied(p1, x', y')
    {
      assert p1[0].Covers(x', y');
    }
    assert FirstFit(p1, 6, 4, size, 6, 0);
    var p2 := d[..2];
    forall x', y' | 0 <= x' < 12 && y' == 0
      ensures Occupied(p2, x', y')
    {
      if x' < 6 {
        assert p2[0].Covers(x', y');
      } else {
        assert p2[1].Covers(x', y');
      }
    }
    assert FirstFit(p2, 2, 8, size, 12, 0);
    var p3 := d[..3];
    forall x', y' | 0 <= x' <= 6 && 0 <= y' <= 4 && ScanBefore(x', y', 6, 4)
      ensures Occupied(p3, x', y')
    {
      if x' < 6 {
        assert p3[0].Covers(x', y');
      } else {
        assert p3[1].Covers(x', y');
      }
    }
    assert FirstFit(p3, 10, 1, size, 6, 4);
  }

  /**
   * The corner test does not keep placed rectangles apart: with a 16 x 16
   * container the 10 x 1 candidate is accepted at (6, 4), since none of its
   * corners is occupied, although it runs across the 2 x 8 one at (12, 0).
   * With no padding and the square option these candidates get exactly this
   * container on the first attempt.
   */
  lemma CornerTestAllowsOverlap(dsts: seq<Rect>)
    requires FirstFitPlacement(OverlapExample(), Point(16, 16), dsts) && |dsts| == 4
    ensures dsts == OverlapExamplePlacement()
    ensures Overlap(dsts[2], dsts[3]) && dsts[2].Covers(12, 4) && dsts[3].Covers(12, 4)
    ensures SortByArea(OverlapExample()) == OverlapExample()
    ensures InRange(StatsOf(OverlapExample()), true, 0, 0)
    ensures PackedSizeOf(StatsOf(OverlapExample()), true, 0, 0) == Point(16, 16)
  {
    OverlapExampleIsFirstFit();
    PlacementUnique(OverlapExample(), Point(16, 16), dsts, OverlapExamplePlacement());
    OverlapExampleContainer();
  }

  /** With the square option and no retry, the four example candidates get a 16 x 16 container. */
  lemma OverlapExampleContainer()
    ensures SortByArea(OverlapExample()) == OverlapExample()
    ensures StatsOf(OverlapExample()) == Stats(86, 10, 8)
    ensures InRange(Stats(86, 10, 8), true, 0, 0)
    ensures PackedSizeOf(Stats(86, 10, 8), true, 0, 0) == Point(16, 16)
  {
    OverlapExampleSorted();
    OverlapExampleStats();
    OverlapExampleRounding();
    var st := Stats(86, 10, 8);
    assert WidthArg(st) == 10 && HeightArg(st, 0) == 10;
    ProductsFromStart(16, 16, 86, true, 0);
  }

  lemma OverlapExampleRounding()
    ensures CeilSqrt(86) == 10 && NextPow2(10) == 16
  {
    CeilSqrtLeast(86, 10);
    NextPow2Value(10);
    assert BitLength(9) == 4;
  }

  lemma OverlapExampleSorted()
    ensures SortByArea(OverlapExample()) == OverlapExample()
  {
    OverlapExampleInOrder();
    SortByAreaKeepsSorted(OverlapExample());
  }

  /** The areas of the four example candidates are 36, 24, 16 and 10. */
  lemma OverlapExampleInOrder()
    ensures SortedByArea(OverlapExample())
  {
    var s := OverlapExample();
    assert AreaOf(s[0]) == 36 && AreaOf(s[1]) == 24 && AreaOf(s[2]) == 16 && AreaOf(s[3]) == 10;
  }

  lemma OverlapExampleStats()
    ensures StatsOf(OverlapExample()) == Stats(86, 10, 8)
  {
    var s := OverlapExample();
    assert s[..3][..2] == s[..2] && s[..2][..1] == s[..1] && s[..1][..0] == [] && s[..4] == s;
    assert SumOf(s[..1], AreaOf) == 36 && MaxOf(s[..1], WidthOf) == 6 && MaxOf(s[..1], HeightOf) == 6;
    assert SumOf(s[..2], AreaOf) == 60 && MaxOf(s[..2], WidthOf) == 6 && MaxOf(s[..2], HeightOf) == 6;
    assert SumOf(s[..3], AreaOf) == 76 && MaxOf(s[..3], WidthOf) == 6 && MaxOf(s[..3], HeightOf) == 8;
  }
}
