/**
 * The retry schedule of Pack. When a candidate reaches a row where it no
 * longer fits, Pack starts over with the hint heur = size.y + 1 and one more
 * retry; the C++ code asserts that fewer than 512 attempts are made. This
 * module states what the hint satisfies on every attempt, why that keeps the
 * retry count small, and why candidates of bounded size never drive the
 * estimate out of the 32-bit range.
 */
module Retry {
  import opened Bits
  import opened Image
  import opened Sizing
  import opened Placement

  /**
   * What the arguments of every call of Pack satisfy. The first call may
   * pass any non-negative hint (the default is 0); after n >= 2 retries the
   * hint exceeds 2^(n-2), because the height at least doubles from the
   * second retry on; and no hint exceeds the largest height plus one.
   */
  predicate RetryHint(heur: int, n: int)
  {
    n >= 0 && 0 <= heur <= 2 * MaxPow2Arg + 1
    && (n >= 2 ==> heur >= 1 && heur - 1 >= Pow2(n - 2))
  }

  /** The assertion n < 512 at the top of Pack holds on every call. */
  lemma RetryBound(heur: int, n: int)
    requires RetryHint(heur, n)
    ensures n <= 33 && n < 512
  {
    if n > 33 {
      Pow2Constants();
      Pow2Of32();
      Pow2Monotone(32, n - 2);
      assert false;
    }
  }

  /** A power of two above 2^k is at least 2^(k+1). */
  lemma PowerAbove(x: nat, k: nat)
    requires IsPow2(x) && x > Pow2(k)
    ensures x >= Pow2(k + 1)
  {
    Pow2Gap(BitLength(x) - 1, k);
  }

  /** From the second retry on, the hint lies above 2^(n-2). */
  lemma HintAbove(heur: int, n: int)
    requires RetryHint(heur, n) && n >= 2
    ensures heur > Pow2(n - 2)
  {
  }

  /**
   * The hint and count Pack passes on when an attempt fails satisfy
   * RetryHint again.
   */
  lemma NextRetryHint(st: Stats, square: bool, heur: int, n: int)
    requires RetryHint(heur, n) && InRange(st, square, heur, n)
    requires st.maxW >= 1 && st.maxH >= 1
    ensures RetryHint(PackedSizeOf(st, square, heur, n).y + 1, n + 1)
  {
    var y := PackedSizeOf(st, square, heur, n).y;
    NextPow2Arg(HeightArg(st, heur));
    RetryStep(y, heur, n);
  }

  /** A power of two at least the hint, and within the largest height, is the next hint. */
  lemma RetryStep(y: nat, heur: int, n: int)
    requires RetryHint(heur, n) && IsPow2(y) && y <= 2 * MaxPow2Arg
    requires n >= 2 ==> y >= heur
    ensures RetryHint(y + 1, n + 1)
  {
    if n >= 2 {
      HintAbove(heur, n);
      PowerAbove(y, n - 2);
    }
  }

  /** The bound on padded candidate heights (summed) and widths used below. */
  const StackLimit: int := 8192

  /** Candidates whose stacked height and largest width stay within StackLimit. */
  predicate Bounded(s: seq<RenderSprite>)
  {
    NonEmptySizes(s) && SumOf(s, HeightOf) <= StackLimit && MaxOf(s, WidthOf) <= StackLimit
  }

  /** The largest hint that can reach attempt n when the candidates are Bounded. */
  function HeurCap(n: int): int
  {
    if n == 1 then StackLimit + 1 else if n == 2 then 2 * StackLimit + 1 else StackLimit
  }

  lemma NonEmptySizesPermutation(a: seq<RenderSprite>, b: seq<RenderSprite>)
    requires multiset(a) == multiset(b) && NonEmptySizes(a)
    ensures NonEmptySizes(b)
  {
    forall i | 0 <= i < |b|
      ensures b[i].src.w >= 1 && b[i].src.h >= 1
    {
      assert b[i] in multiset(a);
    }
  }

  lemma BoundedPermutation(a: seq<RenderSprite>, b: seq<RenderSprite>)
    requires multiset(a) == multiset(b) && Bounded(a)
    ensures Bounded(b) && StatsOf(a) == StatsOf(b)
  {
    NonEmptySizesPermutation(a, b);
    StatsOfPermutation(a, b);
  }

  lemma InitNonEmpty(s: seq<RenderSprite>)
    requires |s| > 0 && NonEmptySizes(s)
    ensures NonEmptySizes(s[..|s| - 1])
  {
    assert forall i :: 0 <= i < |s| - 1 ==> s[..|s| - 1][i] == s[i];
  }

  /** The tallest candidate is no taller than all of them stacked. */
  lemma {:induction false} MaxAtMostSum(s: seq<RenderSprite>)
    requires NonEmptySizes(s)
    ensures MaxOf(s, HeightOf) <= SumOf(s, HeightOf)
  {
    if |s| > 0 {
      InitNonEmpty(s);
      MaxAtMostSum(s[..|s| - 1]);
    }
  }

  lemma AreaStep(area: int, height: int, width: int, m: int, w: int, h: int)
    requires 0 <= area <= height * width && height >= 0
    requires 0 <= width <= m && 0 <= w <= m && h >= 0
    ensures 0 <= area + w * h <= (height + h) * m
  {
    MulMono(height, width, height, m);
    MulMono(w, h, m, h);
  }

  /** The total area is at most the stacked height times the largest width. */
  lemma {:induction false} AreaAtMost(s: seq<RenderSprite>)
    requires NonEmptySizes(s)
    ensures 0 <= SumOf(s, AreaOf) <= SumOf(s, HeightOf) * MaxOf(s, WidthOf)
  {
    if |s| > 0 {
      var t, x := s[..|s| - 1], s[|s| - 1];
      InitNonEmpty(s);
      AreaAtMost(t);
      MaxAtMostSum(t);
      var area, height, width := SumOf(t, AreaOf), SumOf(t, HeightOf), MaxOf(t, WidthOf);
      assert SumOf(s, AreaOf) == area + x.src.w * x.src.h;
      assert SumOf(s, HeightOf) == height + x.src.h;
      assert MaxOf(s, WidthOf) == Max(width, x.src.w);
      AreaStep(area, height, width, Max(width, x.src.w), x.src.w, x.src.h);
    }
  }

  /** NextPow2 of a value up to 2^k is at most 2^k. */
  lemma NextPow2AtMost(v: int, k: nat)
    requires 0 <= v <= Pow2(k) && k <= 31
    ensures v < U32 && NextPow2(v) <= Pow2(k)
  {
    if v == 0 {
      NextPow2Zero();
      Pow2Monotone(k, 32);
      Pow2Of32();
    } else {
      NextPow2Below(v, k);
    }
  }

  /** For Bounded candidates the square-root term is at most StackLimit. */
  lemma BoundedArgs(s: seq<RenderSprite>, heur: int)
    requires Bounded(s) && heur >= 0
    ensures var st := StatsOf(s);
      0 <= st.area <= StackLimit * StackLimit
      && 0 <= st.maxW <= StackLimit && 0 <= st.maxH <= StackLimit
      && 0 <= WidthArg(st) <= StackLimit
      && 0 <= HeightArg(st, heur) <= Max(StackLimit, heur)
  {
    var st := StatsOf(s);
    AreaAtMost(s);
    MaxAtMostSum(s);
    MulMono(SumOf(s, HeightOf), MaxOf(s, WidthOf), StackLimit, StackLimit);
    CeilSqrtLeast(st.area, StackLimit);
  }

  /** Bounded candidates keep every attempt within the 32-bit range. */
  lemma BoundedInRange(s: seq<RenderSprite>, square: bool, heur: int, n: int)
    requires Bounded(s) && 0 <= heur <= HeurCap(n)
    ensures InRange(StatsOf(s), square, heur, n)
  {
    var st := StatsOf(s);
    BoundedArgs(s, heur);
    Pow2Constants();
    NextPow2AtMost(WidthArg(st), 13);
    NextPow2AtMost(HeightArg(st, heur), 15);
    var w, h := NextPow2(WidthArg(st)), NextPow2(HeightArg(st, heur));
    MulMono(w, h, 8192, 32768);
    MulMono(h, h, 32768, 32768);
    ProductsFromStart(w, h, st.area, square, n);
  }

  /**
   * When an attempt over Bounded candidates fails, the container was too
   * narrow for the widest one or too short for all of them stacked; the next
   * hint is then again within the cap of the next attempt.
   */
  lemma BoundedRetry(s: seq<RenderSprite>, square: bool, heur: int, n: int)
    requires Bounded(s) && 0 <= heur <= HeurCap(n) && n >= 0
    requires InRange(StatsOf(s), square, heur, n)
    requires var size := PackedSizeOf(StatsOf(s), square, heur, n);
      size.x < MaxOf(s, WidthOf) || size.y < SumOf(s, HeightOf)
    ensures PackedSizeOf(StatsOf(s), square, heur, n).y + 1 <= HeurCap(n + 1)
  {
    var st := StatsOf(s);
    var size := PackedSizeOf(st, square, heur, n);
    BoundedArgs(s, heur);
    Pow2Constants();
    if n == 0 {
      NextPow2AtMost(HeightArg(st, heur), 13);
    } else if n == 1 {
      NextPow2AtMost(HeightArg(st, heur), 14);
    } else {
      assert square ==> size.x == size.y;
      assert !square ==> size.x >= st.maxW;
      assert size.y < StackLimit;
    }
  }
}
