/**
 * The container-size estimate of the atlas packer.
 *
 * The packer sums the areas of the padded candidates, takes the ceiling of
 * the square root of that sum, and rounds the larger of that and the widest
 * (respectively tallest, or the height hint) candidate up to a power of two.
 * While at most one retry has happened it may halve the width, then the
 * height, as long as strictly more than the total area remains. The C++ code
 * does this in 32-bit `int`s and a `uint32_t` NextPow2; `InRange` names the
 * inputs for which none of the products and sums it actually evaluates, nor
 * the mask size computed from its result, leaves the range of `int`.
 */
module Sizing {
  import opened Bits
  import opened Geometry
  import opened Image
  import opened Seqs

  const IntMax: int := 0x7FFF_FFFF

  /** Largest NextPow2 argument whose result still fits in a positive `int`. */
  const MaxPow2Arg: nat := 0x4000_0000

  function Max(a: int, b: int): int
  {
    if a >= b then a else b
  }

  lemma Pow2Constants()
    ensures Pow2(13) == 8192 && Pow2(14) == 16384 && Pow2(15) == 32768
    ensures Pow2(30) == MaxPow2Arg && Pow2(31) == 2 * MaxPow2Arg
  {
    assert Pow2(15) == 32768;
    Pow2Add(15, 15);
  }

  /**
   * The packer's NextPow2 on uint32: decrement (wrapping 0 to 2^32 - 1),
   * smear the top bit downwards, increment (wrapping 2^32 to 0).
   */
  function NextPow2(value: nat): (r: nat)
    requires value < U32
    ensures r < U32
  {
    Inc32(Smear(Dec32(value)))
  }

  /** x is a power of two. */
  predicate IsPow2(x: nat)
  {
    x >= 1 && x == Pow2(BitLength(x) - 1)
  }

  lemma Pow2IsPow2(k: nat)
    ensures BitLength(Pow2(k)) == k + 1 && IsPow2(Pow2(k))
  {
    BitLengthUnique(Pow2(k), k + 1);
  }

  /** Half of a power of two other than 1 is a power of two. */
  lemma HalfPow2(x: nat)
    requires IsPow2(x) && x >= 2
    ensures IsPow2(x / 2) && x / 2 * 2 == x
  {
    var k := BitLength(x) - 1;
    assert k >= 1;
    assert Pow2(k) == 2 * Pow2(k - 1);
    Pow2IsPow2(k - 1);
  }

  /** A value below 2m taken modulo m loses at most one m. */
  lemma NextPow2Exponent(v: nat)
    requires 1 <= v <= 2 * MaxPow2Arg
    ensures v <= Pow2(BitLength(v - 1)) <= 2 * MaxPow2Arg
  {
    var L := BitLength(v - 1);
    BitLengthBounds(v - 1);
    Pow2Constants();
    if L > 31 {
      Pow2Monotone(31, L - 1);
      assert false;
    }
    Pow2Monotone(L, 31);
  }

  /** For 1 <= v <= 2^31 neither the decrement nor the increment wraps around. */
  lemma NextPow2NoWrap(v: nat)
    requires 1 <= v <= 2 * MaxPow2Arg
    ensures NextPow2(v) == Pow2(BitLength(v - 1))
  {
    var u := Dec32(v);
    assert u == v - 1;
    SmearValue(u);
    NextPow2Exponent(v);
    assert Smear(u) + 1 == Pow2(BitLength(u)) <= 2 * MaxPow2Arg;
    assert NextPow2(v) == Inc32(Smear(u));
  }

  /** For 1 <= v <= 2^31 the smeared bits give exactly 2^BitLength(v - 1), which is at least v. */
  lemma NextPow2Value(v: nat)
    requires 1 <= v <= 2 * MaxPow2Arg
    ensures NextPow2(v) == Pow2(BitLength(v - 1))
    ensures IsPow2(NextPow2(v)) && NextPow2(v) >= v
  {
    var L := BitLength(v - 1);
    NextPow2NoWrap(v);
    NextPow2Exponent(v);
    Pow2IsPow2(L);
    assert NextPow2(v) == Pow2(L);
  }

  /**
   * For 1 <= v <= 2^31, NextPow2(v) is the least power of two at or above v.
   */
  lemma NextPow2IsLeastPow2(v: nat)
    requires 1 <= v <= 2 * MaxPow2Arg
    ensures IsPow2(NextPow2(v)) && NextPow2(v) >= v
    ensures forall k: nat :: Pow2(k) >= v ==> NextPow2(v) <= Pow2(k)
  {
    NextPow2Value(v);
    forall k: nat | Pow2(k) >= v
      ensures NextPow2(v) <= Pow2(k)
    {
      NextPow2AtMostPow2(v, k);
    }
  }

  lemma NextPow2AtMostPow2(v: nat, k: nat)
    requires 1 <= v <= 2 * MaxPow2Arg && v <= Pow2(k)
    ensures NextPow2(v) <= Pow2(k)
  {
    NextPow2NoWrap(v);
    LeastPow2Above(v, k);
  }

  /** A power of two 2^k at or above v >= 1 is at least 2^BitLength(v - 1). */
  lemma LeastPow2Above(v: nat, k: nat)
    requires 1 <= v <= Pow2(k)
    ensures Pow2(BitLength(v - 1)) <= Pow2(k)
  {
    var L := BitLength(v - 1);
    BitLengthBounds(v - 1);
    if L > 0 {
      if k < L {
        Pow2Monotone(k, L - 1);
        assert false;
      }
      Pow2Monotone(L, k);
    }
  }

  /** NextPow2 rounds a value no larger than a power of two to at most that power. */
  lemma NextPow2Below(v: nat, k: nat)
    requires 1 <= v <= Pow2(k) && k <= 31
    ensures v < U32 && v <= NextPow2(v) <= Pow2(k)
  {
    Pow2Constants();
    Pow2Monotone(k, 31);
    NextPow2Value(v);
    NextPow2AtMostPow2(v, k);
  }

  /** 0 - 1 wraps to 2^32 - 1, which smears to itself, and + 1 wraps back to 0. */
  lemma NextPow2Zero()
    ensures NextPow2(0) == 0
  {
    Pow2Of32();
    BitLengthUnique(U32 - 1, 32);
    SmearValue(U32 - 1);
  }

  /** NextPow2 leaves the powers of two that fit in a uint32 unchanged. */
  lemma NextPow2OfPow2(k: nat)
    requires k <= 31
    ensures Pow2(k) < U32 && NextPow2(Pow2(k)) == Pow2(k)
  {
    Pow2Constants();
    Pow2Monotone(k, 31);
    NextPow2Below(Pow2(k), k);
  }

  lemma MulMono(a: int, b: int, c: int, d: int)
    requires 0 <= a <= c && 0 <= b <= d
    ensures a * b <= c * d
  {
    assert a * b <= c * b;
    assert c * b <= c * d;
  }

  /** ceil(sqrt(n)), searched upwards from k. */
  function CeilSqrtFrom(n: nat, k: nat): (r: nat)
    requires k == 0 || (k - 1) * (k - 1) < n
    ensures r * r >= n
    ensures r == 0 || (r - 1) * (r - 1) < n
    decreases n - k
  {
    if k * k >= n then k
    else
      assert k < n by {
        if k >= n && k >= 1 {
          MulMono(1, k, k, k);
        }
      }
      CeilSqrtFrom(n, k + 1)
  }

  /** The ceiling of the square root of n: the least r with r * r >= n. */
  function CeilSqrt(n: nat): (r: nat)
    ensures r * r >= n
    ensures r == 0 || (r - 1) * (r - 1) < n
  {
    CeilSqrtFrom(n, 0)
  }

  lemma CeilSqrtLeast(n: nat, k: nat)
    requires k * k >= n
    ensures CeilSqrt(n) <= k
  {
    var r := CeilSqrt(n);
    if r > k {
      MulMono(k, k, r - 1, r - 1);
    }
  }

  /** The measures the packer reads off a padded candidate. */
  function AreaOf(rs: RenderSprite): int { rs.src.w * rs.src.h }
  function WidthOf(rs: RenderSprite): int { rs.src.w }
  function HeightOf(rs: RenderSprite): int { rs.src.h }

  /** Sum of f over s, accumulated front to back. */
  function SumOf(s: seq<RenderSprite>, f: RenderSprite -> int): int
  {
    if |s| == 0 then 0 else SumOf(s[..|s| - 1], f) + f(s[|s| - 1])
  }

  /** Maximum of f over s, starting from 0 as the packer does. */
  function MaxOf(s: seq<RenderSprite>, f: RenderSprite -> int): (r: int)
    ensures r >= 0
    ensures forall i :: 0 <= i < |s| ==> f(s[i]) <= r
    ensures r == 0 || exists i :: 0 <= i < |s| && f(s[i]) == r
  {
    if |s| == 0 then 0
    else
      var m := MaxOf(s[..|s| - 1], f);
      assert forall i :: 0 <= i < |s| - 1 ==> s[..|s| - 1][i] == s[i];
      Max(m, f(s[|s| - 1]))
  }

  lemma {:induction false} SumOfRemove(s: seq<RenderSprite>, k: int, f: RenderSprite -> int)
    requires 0 <= k < |s|
    ensures SumOf(s, f) == SumOf(s[..k] + s[k + 1..], f) + f(s[k])
  {
    if k < |s| - 1 {
      RemoveBeforeLast(s, k);
      SumOfRemove(s[..|s| - 1], k, f);
    } else {
      RemoveLast(s);
    }
  }

  lemma {:induction false} MaxOfRemove(s: seq<RenderSprite>, k: int, f: RenderSprite -> int)
    requires 0 <= k < |s|
    ensures MaxOf(s, f) == Max(MaxOf(s[..k] + s[k + 1..], f), f(s[k]))
  {
    if k < |s| - 1 {
      RemoveBeforeLast(s, k);
      MaxOfRemove(s[..|s| - 1], k, f);
    } else {
      RemoveLast(s);
    }
  }

  /** Sums of f agree over two sequences whose elements agree on f position by position. */
  lemma {:induction false} SumAgrees(a: seq<RenderSprite>, b: seq<RenderSprite>, f: RenderSprite -> int)
    requires |a| == |b| && forall i :: 0 <= i < |a| ==> f(a[i]) == f(b[i])
    ensures SumOf(a, f) == SumOf(b, f)
    decreases |a|
  {
    if |a| > 0 {
      var a', b' := a[..|a| - 1], b[..|b| - 1];
      assert forall i :: 0 <= i < |a'| ==> a'[i] == a[i] && b'[i] == b[i];
      SumAgrees(a', b', f);
    }
  }

  /** Maxima of f agree over two sequences whose elements agree on f position by position. */
  lemma {:induction false} MaxAgrees(a: seq<RenderSprite>, b: seq<RenderSprite>, f: RenderSprite -> int)
    requires |a| == |b| && forall i :: 0 <= i < |a| ==> f(a[i]) == f(b[i])
    ensures MaxOf(a, f) == MaxOf(b, f)
    decreases |a|
  {
    if |a| > 0 {
      var a', b' := a[..|a| - 1], b[..|b| - 1];
      assert forall i :: 0 <= i < |a'| ==> a'[i] == a[i] && b'[i] == b[i];
      MaxAgrees(a', b', f);
    }
  }

  /** Sums over the candidates do not depend on their order. */
  lemma {:induction false} SumIgnoresOrder(a: seq<RenderSprite>, b: seq<RenderSprite>, f: RenderSprite -> int)
    requires multiset(a) == multiset(b)
    ensures SumOf(a, f) == SumOf(b, f)
    decreases |a|
  {
    if |a| > 0 {
      var k := PickSame(a, b);
      SumIgnoresOrder(a[..|a| - 1], b[..k] + b[k + 1..], f);
      SumOfRemove(b, k, f);
    } else {
      assert |b| == |multiset(b)| == 0;
    }
  }

  /** Maxima over the candidates do not depend on their order. */
  lemma {:induction false} MaxIgnoresOrder(a: seq<RenderSprite>, b: seq<RenderSprite>, f: RenderSprite -> int)
    requires multiset(a) == multiset(b)
    ensures MaxOf(a, f) == MaxOf(b, f)
    decreases |a|
  {
    if |a| > 0 {
      var k := PickSame(a, b);
      MaxIgnoresOrder(a[..|a| - 1], b[..k] + b[k + 1..], f);
      MaxOfRemove(b, k, f);
    } else {
      assert |b| == |multiset(b)| == 0;
    }
  }

  /** The three measures PackedSize accumulates over the candidates. */
  datatype Stats = Stats(area: int, maxW: int, maxH: int)

  function StatsOf(s: seq<RenderSprite>): Stats
  {
    Stats(SumOf(s, AreaOf), MaxOf(s, WidthOf), MaxOf(s, HeightOf))
  }

  lemma StatsOfPermutation(a: seq<RenderSprite>, b: seq<RenderSprite>)
    requires multiset(a) == multiset(b)
    ensures StatsOf(a) == StatsOf(b)
    ensures SumOf(a, HeightOf) == SumOf(b, HeightOf)
  {
    SumIgnoresOrder(a, b, AreaOf);
    SumIgnoresOrder(a, b, HeightOf);
    MaxIgnoresOrder(a, b, WidthOf);
    MaxIgnoresOrder(a, b, HeightOf);
  }

  /** The width PackedSize starts from: NextPow2(max(a, max_w)). */
  function WidthArg(st: Stats): int
  {
    Max(CeilSqrt(if st.area >= 0 then st.area else 0), st.maxW)
  }

  /** The height PackedSize starts from: NextPow2(max(a, heur, max_h)). */
  function HeightArg(st: Stats, heur: int): int
  {
    Max(Max(CeilSqrt(if st.area >= 0 then st.area else 0), heur), st.maxH)
  }

  /**
   * The area sum fits in an `int`, and both NextPow2 arguments are small
   * enough for their results to fit in a positive `int`.
   */
  predicate ArgsInRange(st: Stats, heur: int)
  {
    0 <= st.area <= IntMax && st.maxW >= 0 && st.maxH >= 0
    && WidthArg(st) <= MaxPow2Arg && HeightArg(st, heur) <= MaxPow2Arg
  }

  /**
   * Every product PackedSize evaluates on the start sides w and h, and the
   * product size.x * size.y of the mask allocation in Pack, fits in an
   * `int`. As `&&` short-circuits, (w / 2) * h is evaluated only when
   * n <= 1 and w == h, and (h / 2) * w1, with w1 the width after the first
   * test, only when n <= 1 and w1 != h; with the square option neither is.
   */
  predicate ProductsInRange(w: int, h: int, area: int, square: bool, n: int)
  {
    if square then h * h <= IntMax
    else
      (n <= 1 && w == h ==> (w / 2) * h <= IntMax)
      && var w1 := if n <= 1 && w == h && (w / 2) * h > area then w / 2 else w;
         (n <= 1 && w1 != h ==> (h / 2) * w1 <= IntMax)
         && Halved(w, h, area, n).x * Halved(w, h, area, n).y <= IntMax
  }

  /**
   * None of the 32-bit arithmetic of attempt (heur, n) of PackedSize, nor
   * the mask allocation of size.x * size.y cells that follows it, leaves
   * the range of `int`.
   */
  predicate InRange(st: Stats, square: bool, heur: int, n: int)
  {
    ArgsInRange(st, heur)
    && ProductsInRange(NextPow2(WidthArg(st)), NextPow2(HeightArg(st, heur)), st.area, square, n)
  }

  /** Products of sides no larger than w x h are in range when w * h (h * h when square) is. */
  lemma ProductsFromStart(w: int, h: int, area: int, square: bool, n: int)
    requires w >= 0 && h >= 0 && (if square then h * h else w * h) <= IntMax
    ensures ProductsInRange(w, h, area, square, n)
  {
    if !square {
      var w1 := if n <= 1 && w == h && (w / 2) * h > area then w / 2 else w;
      var h1 := if n <= 1 && w1 != h && (h / 2) * w1 > area then h / 2 else h;
      assert Halved(w, h, area, n) == Point(w1, h1);
      MulMono(w / 2, h, w, h);
      MulMono(h / 2, w1, h, w);
      MulCommutes(h, w);
      MulMono(w1, h1, w, h);
    }
  }

  lemma NextPow2Arg(v: int)
    requires 0 <= v <= MaxPow2Arg
    ensures v <= NextPow2(v) <= 2 * MaxPow2Arg
    ensures v >= 1 ==> IsPow2(NextPow2(v))
  {
    if v == 0 {
      NextPow2Zero();
    } else {
      Pow2Constants();
      NextPow2Below(v, 30);
      NextPow2IsLeastPow2(v);
    }
  }

  /**
   * The sides PackedSize starts from, before any halving: powers of two (for
   * non-empty candidates) covering the total area, the widest candidate,
   * and the tallest candidate and the hint.
   */
  lemma StartSides(st: Stats, heur: int)
    requires ArgsInRange(st, heur)
    ensures var w, h := NextPow2(WidthArg(st)), NextPow2(HeightArg(st, heur));
      w * h >= st.area && h * h >= st.area
      && w >= st.maxW && h >= st.maxH && h >= heur && w >= 0 && h >= 0
      && (st.maxW >= 1 ==> IsPow2(w)) && (st.maxH >= 1 ==> IsPow2(h))
  {
    var a := CeilSqrt(st.area);
    var w, h := NextPow2(WidthArg(st)), NextPow2(HeightArg(st, heur));
    NextPow2Arg(WidthArg(st));
    NextPow2Arg(HeightArg(st, heur));
    MulMono(a, a, w, h);
    MulMono(a, a, h, h);
  }

  /**
   * PackedSize's halving step while n <= 1: the width is halved when the
   * sides are equal and half the width still holds more than the area; then
   * the height is halved when the sides differ and half the height still
   * holds more than the area.
   */
  function Halved(w: int, h: int, area: int, n: int): Point
  {
    var w1 := if n <= 1 && w == h && (w / 2) * h > area then w / 2 else w;
    var h1 := if n <= 1 && w1 != h && (h / 2) * w1 > area then h / 2 else h;
    Point(w1, h1)
  }

  lemma MulCommutes(a: int, b: int)
    ensures a * b == b * a
  {
  }

  /** A half side that still holds more than a non-negative area comes from a side of at least 2. */
  lemma HalfPositive(side: int, other: int, area: int)
    requires side >= 0 && other >= 0 && area >= 0 && (side / 2) * other > area
    ensures side >= 2
  {
    if side < 2 {
      assert false;
    }
  }

  /**
   * Halving never shrinks the container below the area, never grows a side,
   * keeps powers of two and does nothing after the first retry.
   */
  lemma HalvedSides(w: int, h: int, area: int, n: int)
    requires w >= 0 && h >= 0 && area >= 0 && w * h >= area
    ensures var r := Halved(w, h, area, n);
      r.x * r.y >= area && 0 <= r.x <= w && 0 <= r.y <= h && r.x * r.y <= w * h
      && (n > 1 ==> r == Point(w, h))
      && (IsPow2(w) && IsPow2(h) ==> IsPow2(r.x) && IsPow2(r.y))
  {
    var w1 := if n <= 1 && w == h && (w / 2) * h > area then w / 2 else w;
    var h1 := if n <= 1 && w1 != h && (h / 2) * w1 > area then h / 2 else h;
    assert Halved(w, h, area, n) == Point(w1, h1);
    if w1 != w {
      HalfPositive(w, h, area);
      if IsPow2(w) {
        HalfPow2(w);
      }
    }
    if h1 != h {
      HalfPositive(h, w1, area);
      if IsPow2(h) {
        HalfPow2(h);
      }
    }
    MulCommutes(w1, h1);
    MulMono(w1, h1, w, h);
  }

  /**
   * The estimated container for the candidates with measures `st`, height
   * hint `heur` and retry count `n`. The container has room for the total
   * area; both sides are powers of two; without the square option and after
   * two retries, and always with it, the height covers the hint and the
   * tallest candidate; after two retries the width covers the widest one.
   */
  function PackedSizeOf(st: Stats, square: bool, heur: int, n: int): (r: Point)
    requires InRange(st, square, heur, n)
    ensures r.x * r.y >= st.area
    ensures r.x >= 0 && r.y >= 0
    ensures st.maxW >= 1 && st.maxH >= 1 ==> IsPow2(r.x) && IsPow2(r.y)
    ensures square ==> r.x == r.y
    ensures square || n > 1 ==> r.y >= heur && r.y >= st.maxH
    ensures !square && n > 1 ==> r.x >= st.maxW
    ensures r.y <= NextPow2(HeightArg(st, heur))
    ensures r.x * r.y <= IntMax
  {
    var w := NextPow2(WidthArg(st));
    var h := NextPow2(HeightArg(st, heur));
    StartSides(st, heur);
    if square then
      Point(h, h)
    else
      HalvedSides(w, h, st.area, n);
      Halved(w, h, st.area, n)
  }

  /**
   * The halving rule applies while n <= 1, not only on the first attempt:
   * a 40 x 1 and a 1 x 40 candidate get 32 x 32 with no retry and again
   * after one retry (hint 33), and 64 x 64 only after the second retry.
   */
  lemma HalvingOnFirstTwoAttempts()
    ensures InRange(Stats(80, 40, 40), false, 0, 0) && InRange(Stats(80, 40, 40), false, 33, 1)
    ensures InRange(Stats(80, 40, 40), false, 33, 2)
    ensures PackedSizeOf(Stats(80, 40, 40), false, 0, 0) == Point(32, 32)
    ensures PackedSizeOf(Stats(80, 40, 40), false, 33, 1) == Point(32, 32)
    ensures PackedSizeOf(Stats(80, 40, 40), false, 33, 2) == Point(64, 64)
  {
    Example40();
    var st := Stats(80, 40, 40);
    assert WidthArg(st) == 40 && HeightArg(st, 0) == 40 && HeightArg(st, 33) == 40;
    assert Halved(64, 64, 80, 0) == Halved(64, 64, 80, 1) == Point(32, 32);
  }

  lemma Example40()
    ensures CeilSqrt(80) == 9 && NextPow2(40) == 64
  {
    CeilSqrtLeast(80, 9);
    NextPow2Value(40);
    assert BitLength(39) == 6;
  }

  /**
   * A 65536-wide estimate whose start sides 65536 x 32768 overflow an
   * `int` is still in range: the width test is skipped as the sides
   * differ, and (h / 2) * w = 2^30 fits and exceeds the area, so the
   * container is halved to 65536 x 16384 before the mask is allocated.
   * This holds for every area strictly between 2^28 and 2^30, such as
   * 268500992.
   */
  lemma WideStartHalvesInRange(area: int)
    requires 0x1000_0000 < area < 0x4000_0000
    ensures var st := Stats(area, 65536, 1024);
      NextPow2(WidthArg(st)) * NextPow2(HeightArg(st, 0)) > IntMax
      && InRange(st, false, 0, 0)
      && PackedSizeOf(st, false, 0, 0) == Point(65536, 16384)
  {
    var st := Stats(area, 65536, 1024);
    WideStartSides(area);
    assert Halved(65536, 32768, area, 0) == Point(65536, 16384);
  }

  /** The start sides of that estimate: 65536 from the widest candidate, 32768 from the area. */
  lemma WideStartSides(area: int)
    requires 0x1000_0000 < area < 0x4000_0000
    ensures var st := Stats(area, 65536, 1024);
      ArgsInRange(st, 0)
      && NextPow2(WidthArg(st)) == 65536 && NextPow2(HeightArg(st, 0)) == 32768
  {
    var st := Stats(area, 65536, 1024);
    var r := CeilSqrt(area);
    CeilSqrtLeast(area, 32768);
    if r <= 16384 {
      MulMono(r, r, 16384, 16384);
      assert false;
    }
    assert WidthArg(st) == 65536 && HeightArg(st, 0) == r;
    Pow2Constants();
    assert Pow2(16) == 65536;
    NextPow2OfPow2(16);
    NextPow2Value(r);
    BitLengthUnique(r - 1, 15);
  }
}
