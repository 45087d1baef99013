/**
 * Animation groups and the frame indices they hold. A group lists sprite
 * indices of its atlas; the groups of an atlas together list every sprite
 * index exactly once. When a sprite is erased, every frame index at or above
 * the erased one moves down by one, so that the surviving frames keep naming
 * the same sprites.
 */
module Frames {
  import opened Seqs

  /** A named group of frames shown `frameTime` seconds each. */
  datatype Animation = Animation(name: string, frameTime: real, frames: seq<int>)

  /** The frames of all groups, group after group. */
  function AllFrames(anims: seq<Animation>): seq<int>
  {
    if |anims| == 0 then [] else AllFrames(anims[..|anims| - 1]) + anims[|anims| - 1].frames
  }

  /** The groups together hold each of the sprite indices 0..n-1 exactly once. */
  predicate FramesPartition(anims: seq<Animation>, n: nat)
  {
    multiset(AllFrames(anims)) == multiset(Range(n))
  }

  /** The index a frame holds once sprite `removed` has been erased. */
  function ShiftFrame(f: int, removed: int): int
  {
    if f >= removed then f - 1 else f
  }

  function ShiftFrames(fs: seq<int>, removed: int): (r: seq<int>)
    ensures |r| == |fs|
    ensures forall k :: 0 <= k < |fs| ==> r[k] == ShiftFrame(fs[k], removed)
  {
    Map((f: int) => ShiftFrame(f, removed), fs)
  }

  /** Every group with its frames shifted past the erased sprite `removed`. */
  function Renumbered(anims: seq<Animation>, removed: int): (r: seq<Animation>)
    ensures |r| == |anims|
    ensures forall g :: 0 <= g < |anims| ==>
      r[g] == anims[g].(frames := ShiftFrames(anims[g].frames, removed))
  {
    seq(|anims|, g requires 0 <= g < |anims| => anims[g].(frames := ShiftFrames(anims[g].frames, removed)))
  }

  lemma {:induction false} AllFramesConcat(a: seq<Animation>, b: seq<Animation>)
    ensures AllFrames(a + b) == AllFrames(a) + AllFrames(b)
    decreases |b|
  {
    if |b| > 0 {
      assert (a + b)[..|a + b| - 1] == a + b[..|b| - 1];
      AllFramesConcat(a, b[..|b| - 1]);
    } else {
      assert a + b == a;
    }
  }

  lemma AllFramesCons(anims: seq<Animation>)
    requires |anims| > 0
    ensures AllFrames(anims) == anims[0].frames + AllFrames(anims[1..])
  {
    assert anims == [anims[0]] + anims[1..];
    AllFramesConcat([anims[0]], anims[1..]);
    assert AllFrames([anims[0]]) == anims[0].frames by {
      assert [anims[0]][..0] == [];
    }
  }

  /** The frames of group g sit between those of the groups before and after it. */
  lemma AllFramesSplit(anims: seq<Animation>, g: int)
    requires 0 <= g < |anims|
    ensures multiset(AllFrames(anims))
         == multiset(AllFrames(anims[..g])) + multiset(anims[g].frames) + multiset(AllFrames(anims[g + 1..]))
  {
    var rest := anims[g..];
    assert anims == anims[..g] + rest;
    AllFramesConcat(anims[..g], rest);
    AllFramesCons(rest);
    assert rest[0] == anims[g] && rest[1..] == anims[g + 1..];
  }

  /** Replacing the frames of one group replaces them in the whole multiset. */
  lemma ReplaceGroupFrames(anims: seq<Animation>, g: int, frames: seq<int>)
    requires 0 <= g < |anims|
    ensures multiset(AllFrames(anims[g := anims[g].(frames := frames)]))
         == multiset(AllFrames(anims)) - multiset(anims[g].frames) + multiset(frames)
  {
    var b := anims[g := anims[g].(frames := frames)];
    AllFramesSplit(anims, g);
    AllFramesSplit(b, g);
    assert b[..g] == anims[..g] && b[g + 1..] == anims[g + 1..];
  }

  /** Erasing a whole group takes its frames out of the multiset. */
  lemma EraseGroupFrames(anims: seq<Animation>, g: int)
    requires 0 <= g < |anims|
    ensures multiset(AllFrames(anims[..g] + anims[g + 1..]))
         == multiset(AllFrames(anims)) - multiset(anims[g].frames)
  {
    AllFramesSplit(anims, g);
    AllFramesConcat(anims[..g], anims[g + 1..]);
  }

  /** Every frame of every group is one of AllFrames. */
  lemma FrameMember(anims: seq<Animation>, g: int, k: int)
    requires 0 <= g < |anims| && 0 <= k < |anims[g].frames|
    ensures anims[g].frames[k] in multiset(AllFrames(anims))
  {
    AllFramesSplit(anims, g);
    assert anims[g].frames[k] in anims[g].frames;
  }

  /** Under a partition every frame is a valid sprite index. */
  lemma FrameInRange(anims: seq<Animation>, n: nat, g: int, k: int)
    requires FramesPartition(anims, n)
    requires 0 <= g < |anims| && 0 <= k < |anims[g].frames|
    ensures 0 <= anims[g].frames[k] < n
  {
    FrameMember(anims, g, k);
    RangeMembers(n, anims[g].frames[k]);
  }

  lemma {:induction false} RangeOnce(n: nat, x: int)
    requires 0 <= x < n
    ensures multiset(Range(n))[x] == 1
  {
    RangeSnoc(n - 1);
    if x < n - 1 {
      RangeOnce(n - 1, x);
    } else {
      RangeMembers(n - 1, x);
    }
  }

  lemma {:induction false} AllFramesRenumbered(anims: seq<Animation>, removed: int)
    ensures AllFrames(Renumbered(anims, removed)) == ShiftFrames(AllFrames(anims), removed)
    decreases |anims|
  {
    if |anims| > 0 {
      var t := anims[..|anims| - 1];
      assert Renumbered(anims, removed)[..|anims| - 1] == Renumbered(t, removed);
      AllFramesRenumbered(t, removed);
    }
  }

  /** Shifting the indices 0..n-1 without `removed` gives the indices 0..n-2. */
  lemma ShiftRangeWithout(n: nat, removed: int)
    requires 0 <= removed < n
    ensures var full := Range(n);
      ShiftFrames(full[..removed] + full[removed + 1..], removed) == Range(n - 1)
  {
  }

  /**
   * Erasing sprite `removed` of n sprites, after its frame has left the
   * groups, leaves the renumbered groups a partition of 0..n-2.
   */
  lemma RenumberKeepsPartition(anims: seq<Animation>, n: nat, removed: int)
    requires 0 <= removed < n
    requires multiset(AllFrames(anims)) == multiset(Range(n)) - multiset{removed}
    ensures FramesPartition(Renumbered(anims, removed), n - 1)
  {
    var full := Range(n);
    var rest := full[..removed] + full[removed + 1..];
    RemoveMultiset(full, removed);
    var shift := (f: int) => ShiftFrame(f, removed);
    MapRespectsMultiset(shift, AllFrames(anims), rest);
    assert ShiftFrames(AllFrames(anims), removed) == Map(shift, AllFrames(anims));
    assert ShiftFrames(rest, removed) == Map(shift, rest);
    ShiftRangeWithout(n, removed);
    AllFramesRenumbered(anims, removed);
  }

  /** A surviving frame still names the same sprite after the erasure. */
  lemma ShiftKeepsSprite<T>(sprites: seq<T>, f: int, removed: int)
    requires 0 <= f < |sprites| && 0 <= removed < |sprites| && f != removed
    ensures 0 <= ShiftFrame(f, removed) < |sprites| - 1
    ensures (sprites[..removed] + sprites[removed + 1..])[ShiftFrame(f, removed)] == sprites[f]
  {
  }

  /** The groups once frame k has been erased from group g. */
  function WithoutFrame(anims: seq<Animation>, g: int, k: int): (r: seq<Animation>)
    requires 0 <= g < |anims| && 0 <= k < |anims[g].frames|
    ensures |r| == |anims|
  {
    anims[g := anims[g].(frames := EraseAt(anims[g].frames, k))]
  }

  /**
   * Taking frame k of group g out of a partition of 0..n-1 leaves exactly
   * the other indices, and the taken index appears nowhere else.
   */
  lemma TakeFrame(anims: seq<Animation>, n: nat, g: int, k: int)
    requires FramesPartition(anims, n)
    requires 0 <= g < |anims| && 0 <= k < |anims[g].frames|
    ensures multiset(AllFrames(WithoutFrame(anims, g, k))) == multiset(Range(n)) - multiset{anims[g].frames[k]}
    ensures anims[g].frames[k] !in multiset(AllFrames(WithoutFrame(anims, g, k)))
    ensures 0 <= anims[g].frames[k] < n
  {
    var fs := anims[g].frames;
    var x := fs[k];
    var kept := EraseAt(fs, k);
    FrameInRange(anims, n, g, k);
    ReplaceGroupFrames(anims, g, kept);
    RemoveMultiset(fs, k);
    GroupWithinAll(anims, g);
    TakeOne(multiset(AllFrames(anims)), multiset(fs), multiset(kept), x);
    RangeOnce(n, x);
  }

  lemma GroupWithinAll(anims: seq<Animation>, g: int)
    requires 0 <= g < |anims|
    ensures multiset(anims[g].frames) <= multiset(AllFrames(anims))
  {
    AllFramesSplit(anims, g);
  }

  /** Multiset arithmetic behind TakeFrame. */
  lemma TakeOne(whole: multiset<int>, group: multiset<int>, kept: multiset<int>, x: int)
    requires group <= whole && kept == group - multiset{x} && x in group
    ensures whole - group + kept == whole - multiset{x}
  {
    forall y
      ensures (whole - group + kept)[y] == (whole - multiset{x})[y]
    {
    }
  }
}
