/**
 * The data edits of the editor's "Animation Groups" and "Sprites" windows:
 * creating, selecting and removing a group, moving a frame up or down within
 * its group, and removing a frame together with its sprite.
 *
 * Every edit keeps the atlas invariant that the groups together hold each
 * sprite index exactly once. Removing sprites renumbers the frames of every
 * group; the model states what that renumbering is for through `Shown`, the
 * sprites each group displays: after an edit each surviving frame shows the
 * sprite it showed before.
 */
module Editing {
  import opened Seqs
  import opened Frames
  import opened Image
  import opened Atlases

  /** The name "New Animation" gives the group it creates. */
  const NewGroupName: string := "untitled_anim"

  /** s with the elements at positions i and j exchanged, as std::swap does. */
  function Swap<T>(s: seq<T>, i: int, j: int): (r: seq<T>)
    requires 0 <= i < |s| && 0 <= j < |s|
    ensures |r| == |s| && r[i] == s[j] && r[j] == s[i]
    ensures forall k :: 0 <= k < |s| && k != i && k != j ==> r[k] == s[k]
    ensures multiset(r) == multiset(s)
  {
    s[i := s[j]][j := s[i]]
  }

  /** Swapping the same two positions again restores the sequence. */
  lemma SwapTwice<T>(s: seq<T>, i: int, j: int)
    requires 0 <= i < |s| && 0 <= j < |s|
    ensures Swap(Swap(s, i, j), j, i) == s
  {
    var t := Swap(Swap(s, i, j), j, i);
    forall k | 0 <= k < |s|
      ensures t[k] == s[k]
    {
    }
  }

  /** Every frame of fs is an index below n. */
  predicate Below(fs: seq<int>, n: int)
  {
    forall k :: 0 <= k < |fs| ==> 0 <= fs[k] < n
  }

  /** Every frame of every group is an index below n. */
  predicate FramesBelow(anims: seq<Animation>, n: int)
  {
    forall g :: 0 <= g < |anims| ==> Below(anims[g].frames, n)
  }

  /** The sprites the frames fs show, in order. */
  function ShownFrames(sprites: seq<Sprite>, fs: seq<int>): (r: seq<Sprite>)
    requires Below(fs, |sprites|)
    ensures |r| == |fs|
    ensures forall k :: 0 <= k < |fs| ==> r[k] == sprites[fs[k]]
  {
    seq(|fs|, k requires 0 <= k < |fs| => sprites[fs[k]])
  }

  /** The sprites each group shows, frame by frame. */
  function Shown(sprites: seq<Sprite>, anims: seq<Animation>): (r: seq<seq<Sprite>>)
    requires FramesBelow(anims, |sprites|)
    ensures |r| == |anims|
    ensures forall g :: 0 <= g < |anims| ==> r[g] == ShownFrames(sprites, anims[g].frames)
  {
    seq(|anims|, g requires 0 <= g < |anims| => ShownFrames(sprites, anims[g].frames))
  }

  /** The name and frame time of every group, in order. */
  function Labels(anims: seq<Animation>): (r: seq<(string, real)>)
    ensures |r| == |anims|
    ensures forall g :: 0 <= g < |anims| ==> r[g] == (anims[g].name, anims[g].frameTime)
  {
    Map((a: Animation) => (a.name, a.frameTime), anims)
  }

  /** The frame time "New Animation" copies: the last group's, or the default. */
  function LastFrameTime(anims: seq<Animation>): real
  {
    if |anims| > 0 then anims[|anims| - 1].frameTime else 0.0
  }

  /** Under a partition of 0..n-1 every frame is below n. */
  lemma PartitionBelow(anims: seq<Animation>, n: nat)
    requires FramesPartition(anims, n)
    ensures FramesBelow(anims, n)
  {
    forall g, k | 0 <= g < |anims| && 0 <= k < |anims[g].frames|
      ensures 0 <= anims[g].frames[k] < n
    {
      FrameInRange(anims, n, g, k);
    }
  }

  /** Renumbering changes no name and no frame time. */
  lemma RenumberedLabels(anims: seq<Animation>, removed: int)
    ensures Labels(Renumbered(anims, removed)) == Labels(anims)
  {
    var a, b := Labels(Renumbered(anims, removed)), Labels(anims);
    forall g | 0 <= g < |anims|
      ensures a[g] == b[g]
    {
    }
  }

  /** Replacing the frames of group g changes what that group shows, and nothing else. */
  lemma ShownUpdate(sprites: seq<Sprite>, anims: seq<Animation>, g: int, fs: seq<int>)
    requires FramesBelow(anims, |sprites|) && 0 <= g < |anims| && Below(fs, |sprites|)
    ensures FramesBelow(anims[g := anims[g].(frames := fs)], |sprites|)
    ensures Shown(sprites, anims[g := anims[g].(frames := fs)])
         == Shown(sprites, anims)[g := ShownFrames(sprites, fs)]
  {
    var b := anims[g := anims[g].(frames := fs)];
    assert FramesBelow(b, |sprites|) by {
      forall h | 0 <= h < |b|
        ensures Below(b[h].frames, |sprites|)
      {
      }
    }
    var l, r := Shown(sprites, b), Shown(sprites, anims)[g := ShownFrames(sprites, fs)];
    forall h | 0 <= h < |b|
      ensures l[h] == r[h]
    {
    }
  }

  /** Erasing group g erases what it shows. */
  lemma ShownErased(sprites: seq<Sprite>, anims: seq<Animation>, g: int)
    requires FramesBelow(anims, |sprites|) && 0 <= g < |anims|
    ensures FramesBelow(EraseAt(anims, g), |sprites|)
    ensures Shown(sprites, EraseAt(anims, g)) == EraseAt(Shown(sprites, anims), g)
  {
    var b := EraseAt(anims, g);
    assert FramesBelow(b, |sprites|) by {
      forall h | 0 <= h < |b|
        ensures Below(b[h].frames, |sprites|)
      {
        assert b[h] == anims[if h < g then h else h + 1];
      }
    }
    var l, r := Shown(sprites, b), EraseAt(Shown(sprites, anims), g);
    forall h | 0 <= h < |b|
      ensures l[h] == r[h]
    {
      assert b[h] == anims[if h < g then h else h + 1];
    }
  }

  lemma ShownSwap(sprites: seq<Sprite>, fs: seq<int>, i: int, j: int)
    requires Below(fs, |sprites|) && 0 <= i < |fs| && 0 <= j < |fs|
    ensures Below(Swap(fs, i, j), |sprites|)
    ensures ShownFrames(sprites, Swap(fs, i, j)) == Swap(ShownFrames(sprites, fs), i, j)
  {
    var t := Swap(fs, i, j);
    assert Below(t, |sprites|) by {
      forall k | 0 <= k < |t|
        ensures 0 <= t[k] < |sprites|
      {
        assert t[k] == fs[if k == i then j else if k == j then i else k];
      }
    }
    var l, r := ShownFrames(sprites, t), Swap(ShownFrames(sprites, fs), i, j);
    forall k | 0 <= k < |t|
      ensures l[k] == r[k]
    {
      assert t[k] == fs[if k == i then j else if k == j then i else k];
    }
  }

  lemma ShownErase(sprites: seq<Sprite>, fs: seq<int>, k: int)
    requires Below(fs, |sprites|) && 0 <= k < |fs|
    ensures Below(EraseAt(fs, k), |sprites|)
    ensures ShownFrames(sprites, EraseAt(fs, k)) == EraseAt(ShownFrames(sprites, fs), k)
  {
    var t := EraseAt(fs, k);
    assert Below(t, |sprites|) by {
      forall i | 0 <= i < |t|
        ensures 0 <= t[i] < |sprites|
      {
        assert t[i] == fs[if i < k then i else i + 1];
      }
    }
    var l, r := ShownFrames(sprites, t), EraseAt(ShownFrames(sprites, fs), k);
    forall i | 0 <= i < |t|
      ensures l[i] == r[i]
    {
      assert t[i] == fs[if i < k then i else i + 1];
    }
  }

  lemma ShownSuffix(sprites: seq<Sprite>, fs: seq<int>, k: int)
    requires Below(fs, |sprites|) && 0 <= k <= |fs|
    ensures Below(fs[k..], |sprites|)
    ensures ShownFrames(sprites, fs[k..]) == ShownFrames(sprites, fs)[k..]
  {
    assert Below(fs[k..], |sprites|) by {
      forall i | 0 <= i < |fs| - k
        ensures 0 <= fs[k..][i] < |sprites|
      {
        assert fs[k..][i] == fs[k + i];
      }
    }
  }

  /**
   * Erasing a sprite that no frame names and renumbering the frames past it
   * leaves every group showing the same sprites.
   */
  lemma EraseUnused(sprites: seq<Sprite>, anims: seq<Animation>, removed: int)
    requires FramesBelow(anims, |sprites|) && 0 <= removed < |sprites|
    requires removed !in multiset(AllFrames(anims))
    ensures FramesBelow(Renumbered(anims, removed), |sprites| - 1)
    ensures Shown(EraseAt(sprites, removed), Renumbered(anims, removed)) == Shown(sprites, anims)
  {
    var b := Renumbered(anims, removed);
    var rest := EraseAt(sprites, removed);
    forall g | 0 <= g < |anims|
      ensures Below(b[g].frames, |rest|)
      ensures ShownFrames(rest, b[g].frames) == ShownFrames(sprites, anims[g].frames)
    {
      forall k | 0 <= k < |anims[g].frames|
        ensures 0 <= b[g].frames[k] < |rest|
        ensures rest[b[g].frames[k]] == sprites[anims[g].frames[k]]
      {
        FrameMember(anims, g, k);
        ShiftKeepsSprite(sprites, anims[g].frames[k], removed);
      }
    }
    var l, r := Shown(rest, b), Shown(sprites, anims);
    forall g | 0 <= g < |anims|
      ensures l[g] == r[g]
    {
    }
  }

  /** The partition half of RemoveFrameKeepsPartition. */
  lemma RemoveFramePartition(n: nat, anims: seq<Animation>, g: int, k: int)
    requires FramesPartition(anims, n)
    requires 0 <= g < |anims| && 0 <= k < |anims[g].frames|
    ensures 0 <= anims[g].frames[k] < n
    ensures anims[g].frames[k] !in multiset(AllFrames(WithoutFrame(anims, g, k)))
    ensures FramesPartition(Renumbered(WithoutFrame(anims, g, k), anims[g].frames[k]), n - 1)
  {
    TakeFrame(anims, n, g, k);
    RenumberKeepsPartition(WithoutFrame(anims, g, k), n, anims[g].frames[k]);
  }

  /**
   * Removing frame k of group g and its sprite, then renumbering, keeps the
   * partition, and every other frame shows the sprite it showed before.
   */
  lemma RemoveFrameKeepsPartition(sprites: seq<Sprite>, anims: seq<Animation>, g: int, k: int)
    requires FramesPartition(anims, |sprites|)
    requires 0 <= g < |anims| && 0 <= k < |anims[g].frames|
    ensures var removed := anims[g].frames[k];
      var b := Renumbered(WithoutFrame(anims, g, k), removed);
      0 <= removed < |sprites| && FramesPartition(b, |sprites| - 1)
      && FramesBelow(anims, |sprites|) && FramesBelow(b, |sprites| - 1)
      && Shown(EraseAt(sprites, removed), b)
         == Shown(sprites, anims)[g := EraseAt(Shown(sprites, anims)[g], k)]
  {
    var removed := anims[g].frames[k];
    RemoveFramePartition(|sprites|, anims, g, k);
    PartitionBelow(anims, |sprites|);
    ShownErase(sprites, anims[g].frames, k);
    ShownUpdate(sprites, anims, g, EraseAt(anims[g].frames, k));
    EraseUnused(sprites, WithoutFrame(anims, g, k), removed);
  }

  /** Group g with its first k frames dropped: the frames group removal has still to erase. */
  function Pending(anims: seq<Animation>, g: int, k: int): (r: seq<Animation>)
    requires 0 <= g < |anims| && 0 <= k <= |anims[g].frames|
    ensures |r| == |anims|
  {
    anims[g := anims[g].(frames := anims[g].frames[k..])]
  }

  /** Taking the first pending frame out of group g leaves the frames after it pending. */
  lemma PendingNext(anims: seq<Animation>, g: int, k: int)
    requires 0 <= g < |anims| && 0 <= k < |anims[g].frames|
    ensures WithoutFrame(Pending(anims, g, k), g, 0) == Pending(anims, g, k + 1)
  {
    assert EraseAt(anims[g].frames[k..], 0) == anims[g].frames[k + 1..];
  }

  /** Renumbering commutes with dropping frames from group g. */
  lemma RenumberedPending(anims: seq<Animation>, g: int, k: int, removed: int)
    requires 0 <= g < |anims| && 0 <= k <= |anims[g].frames|
    ensures Renumbered(Pending(anims, g, k), removed) == Pending(Renumbered(anims, removed), g, k)
  {
    var fs := anims[g].frames;
    assert ShiftFrames(fs[k..], removed) == ShiftFrames(fs, removed)[k..];
    var l, r := Renumbered(Pending(anims, g, k), removed), Pending(Renumbered(anims, removed), g, k);
    forall h | 0 <= h < |anims|
      ensures l[h] == r[h]
    {
    }
  }

  /** The partition half of EraseGroupStep. */
  lemma EraseGroupPartition(n: nat, anims: seq<Animation>, g: int, k: int)
    requires 0 <= g < |anims| && 0 <= k < |anims[g].frames|
    requires FramesPartition(Pending(anims, g, k), n)
    ensures 0 <= anims[g].frames[k] < n
    ensures anims[g].frames[k] !in multiset(AllFrames(Pending(anims, g, k + 1)))
    ensures FramesPartition(Pending(Renumbered(anims, anims[g].frames[k]), g, k + 1), n - 1)
  {
    var removed := anims[g].frames[k];
    var p := Pending(anims, g, k);
    assert p[g].frames[0] == removed;
    TakeFrame(p, n, g, 0);
    PendingNext(anims, g, k);
    RenumberKeepsPartition(Pending(anims, g, k + 1), n, removed);
    RenumberedPending(anims, g, k + 1, removed);
  }

  /**
   * One round of group removal: the pending frame k of group g names a
   * sprite; erasing that sprite and renumbering keeps the pending frames a
   * partition, and they show what they showed before, less that sprite.
   */
  lemma EraseGroupStep(sprites: seq<Sprite>, anims: seq<Animation>, g: int, k: int)
    requires 0 <= g < |anims| && 0 <= k < |anims[g].frames|
    requires FramesPartition(Pending(anims, g, k), |sprites|)
    ensures var removed := anims[g].frames[k];
      var b := Renumbered(anims, removed);
      0 <= removed < |sprites| && |b[g].frames| == |anims[g].frames|
      && FramesBelow(Pending(anims, g, k), |sprites|)
      && FramesBelow(Pending(b, g, k + 1), |sprites| - 1)
      && Shown(EraseAt(sprites, removed), Pending(b, g, k + 1))
         == (var s := Shown(sprites, Pending(anims, g, k)); s[g := s[g][1..]])
  {
    var removed := anims[g].frames[k];
    var p, rest := Pending(anims, g, k), Pending(anims, g, k + 1);
    var q := Pending(Renumbered(anims, removed), g, k + 1);
    EraseGroupPartition(|sprites|, anims, g, k);
    RenumberedPending(anims, g, k + 1, removed);
    assert Renumbered(rest, removed) == q;
    PartitionBelow(p, |sprites|);
    PendingSuffix(anims, g, k);
    ShownSuffix(sprites, p[g].frames, 1);
    ShownUpdate(sprites, p, g, p[g].frames[1..]);
    EraseUnused(sprites, rest, removed);
    assert Shown(EraseAt(sprites, removed), q) == Shown(sprites, rest);
  }

  /** The frames after the first pending one are the next pending frames. */
  lemma PendingSuffix(anims: seq<Animation>, g: int, k: int)
    requires 0 <= g < |anims| && 0 <= k < |anims[g].frames|
    ensures var p := Pending(anims, g, k);
      Pending(anims, g, k + 1) == p[g := p[g].(frames := p[g].frames[1..])]
  {
    assert anims[g].frames[k..][1..] == anims[g].frames[k + 1..];
  }

  /** Erasing group g erases its name and frame time. */
  lemma LabelsErased(anims: seq<Animation>, g: int)
    requires 0 <= g < |anims|
    ensures Labels(EraseAt(anims, g)) == EraseAt(Labels(anims), g)
  {
    var l, r := Labels(EraseAt(anims, g)), EraseAt(Labels(anims), g);
    forall h | 0 <= h < |anims| - 1
      ensures l[h] == r[h]
    {
    }
  }

  /**
   * Once all frames of group g are erased from the pending view, erasing
   * the group itself keeps the partition and drops its entry from what the
   * groups show.
   */
  lemma EraseEmptyGroup(sprites: seq<Sprite>, anims: seq<Animation>, g: int)
    requires 0 <= g < |anims|
    requires FramesPartition(Pending(anims, g, |anims[g].frames|), |sprites|)
    ensures FramesPartition(EraseAt(anims, g), |sprites|)
    ensures FramesBelow(Pending(anims, g, |anims[g].frames|), |sprites|)
    ensures FramesBelow(EraseAt(anims, g), |sprites|)
    ensures Shown(sprites, EraseAt(anims, g))
         == EraseAt(Shown(sprites, Pending(anims, g, |anims[g].frames|)), g)
    ensures Labels(EraseAt(anims, g)) == EraseAt(Labels(anims), g)
  {
    var p := Pending(anims, g, |anims[g].frames|);
    assert EraseAt(anims, g) == EraseAt(p, g);
    EraseGroupFrames(p, g);
    assert multiset(p[g].frames) == multiset{};
    PartitionBelow(p, |sprites|);
    ShownErased(sprites, p, g);
    LabelsErased(anims, g);
  }

  /** Replacing element g and then erasing it is erasing it. */
  lemma EraseAtUpdate<T>(s: seq<T>, g: int, x: T)
    requires 0 <= g < |s|
    ensures EraseAt(s[g := x], g) == EraseAt(s, g)
  {
  }

  /** What the next round of group removal needs: a sprite to erase, and group g as long as before. */
  lemma RoundShape(n: nat, anims: seq<Animation>, g: int, k: int)
    requires 0 <= g < |anims| && 0 <= k < |anims[g].frames|
    requires FramesPartition(Pending(anims, g, k), n)
    ensures 0 <= anims[g].frames[k] < n
    ensures var shifted := Renumbered(anims, anims[g].frames[k]);
      |shifted[g].frames| == |anims[g].frames| && FramesPartition(Pending(shifted, g, k + 1), n - 1)
  {
    EraseGroupPartition(n, anims, g, k);
  }

  /**
   * Rounds k, k + 1, ... of group removal, as values: each round erases the
   * sprite that the next pending frame of group g names and renumbers every
   * group, until no frame of g is pending.
   */
  function EraseRounds(sprites: seq<Sprite>, anims: seq<Animation>, g: int, k: int): (r: (seq<Sprite>, seq<Animation>))
    requires 0 <= g < |anims| && 0 <= k <= |anims[g].frames|
    requires FramesPartition(Pending(anims, g, k), |sprites|)
    decreases |anims[g].frames| - k
  {
    if k == |anims[g].frames| then (sprites, anims)
    else
      var removed := anims[g].frames[k];
      RoundShape(|sprites|, anims, g, k);
      EraseRounds(EraseAt(sprites, removed), Renumbered(anims, removed), g, k + 1)
  }

  /** A round with a frame of group g pending hands on to the next round. */
  lemma NextRound(sprites: seq<Sprite>, anims: seq<Animation>, g: int, k: int)
    requires 0 <= g < |anims| && 0 <= k < |anims[g].frames|
    requires FramesPartition(Pending(anims, g, k), |sprites|)
    ensures var removed := anims[g].frames[k];
      0 <= removed < |sprites|
      && FramesPartition(Pending(Renumbered(anims, removed), g, k + 1), |EraseAt(sprites, removed)|)
      && EraseRounds(sprites, anims, g, k) == EraseRounds(EraseAt(sprites, removed), Renumbered(anims, removed), g, k + 1)
  {
    RoundShape(|sprites|, anims, g, k);
  }

  /** Group removal as values: every round, then the group itself is erased. */
  function GroupErased(sprites: seq<Sprite>, anims: seq<Animation>, g: int): (r: (seq<Sprite>, seq<Animation>))
    requires 0 <= g < |anims| && FramesPartition(anims, |sprites|)
    ensures |r.1| == |anims| - 1
  {
    assert Pending(anims, g, 0) == anims;
    EraseRoundsPartition(sprites, anims, g, 0);
    var rounds := EraseRounds(sprites, anims, g, 0);
    (rounds.0, EraseAt(rounds.1, g))
  }

  /** The rounds leave as many groups as before, and group g as long as before. */
  lemma {:induction false} RoundsShape(sprites: seq<Sprite>, anims: seq<Animation>, g: int, k: int)
    requires 0 <= g < |anims| && 0 <= k <= |anims[g].frames|
    requires FramesPartition(Pending(anims, g, k), |sprites|)
    ensures var r := EraseRounds(sprites, anims, g, k);
      |r.1| == |anims| && |r.1[g].frames| == |anims[g].frames|
    decreases |anims[g].frames| - k
  {
    if k < |anims[g].frames| {
      var removed := anims[g].frames[k];
      RoundShape(|sprites|, anims, g, k);
      RoundsShape(EraseAt(sprites, removed), Renumbered(anims, removed), g, k + 1);
    }
  }

  /** The rounds erase one sprite each, keep the pending frames a partition and keep every label. */
  lemma {:induction false} EraseRoundsPartition(sprites: seq<Sprite>, anims: seq<Animation>, g: int, k: int)
    requires 0 <= g < |anims| && 0 <= k <= |anims[g].frames|
    requires FramesPartition(Pending(anims, g, k), |sprites|)
    ensures var r := EraseRounds(sprites, anims, g, k);
      |r.1| == |anims| && |r.1[g].frames| == |anims[g].frames|
      && |r.0| == |sprites| - (|anims[g].frames| - k)
      && FramesPartition(Pending(r.1, g, |r.1[g].frames|), |r.0|)
      && Labels(r.1) == Labels(anims)
    decreases |anims[g].frames| - k
  {
    if k < |anims[g].frames| {
      var removed := anims[g].frames[k];
      RoundShape(|sprites|, anims, g, k);
      RenumberedLabels(anims, removed);
      EraseRoundsPartition(EraseAt(sprites, removed), Renumbered(anims, removed), g, k + 1);
    }
  }

  /**
   * After the rounds, the groups show what they showed before, except that
   * group g shows nothing.
   */
  lemma {:induction false} EraseRoundsShown(sprites: seq<Sprite>, anims: seq<Animation>, g: int, k: int)
    requires 0 <= g < |anims| && 0 <= k <= |anims[g].frames|
    requires FramesPartition(Pending(anims, g, k), |sprites|) && FramesBelow(Pending(anims, g, k), |sprites|)
    ensures var r := EraseRounds(sprites, anims, g, k);
      |r.1| == |anims| && |r.1[g].frames| == |anims[g].frames|
      && FramesBelow(Pending(r.1, g, |r.1[g].frames|), |r.0|)
      && Shown(r.0, Pending(r.1, g, |r.1[g].frames|)) == Shown(sprites, Pending(anims, g, k))[g := []]
    decreases |anims[g].frames| - k
  {
    RoundsShape(sprites, anims, g, k);
    var s := Shown(sprites, Pending(anims, g, k));
    if k < |anims[g].frames| {
      var removed := anims[g].frames[k];
      RoundShape(|sprites|, anims, g, k);
      NextRound(sprites, anims, g, k);
      EraseGroupStep(sprites, anims, g, k);
      EraseRoundsShown(EraseAt(sprites, removed), Renumbered(anims, removed), g, k + 1);
      UpdateTwice(s, g, s[g][1..], []);
    } else {
      NothingPending(sprites, anims, g);
    }
  }

  /** With every frame of group g dropped, group g shows nothing. */
  lemma NothingPending(sprites: seq<Sprite>, anims: seq<Animation>, g: int)
    requires 0 <= g < |anims| && FramesBelow(Pending(anims, g, |anims[g].frames|), |sprites|)
    ensures var s := Shown(sprites, Pending(anims, g, |anims[g].frames|)); s == s[g := []]
  {
    var s := Shown(sprites, Pending(anims, g, |anims[g].frames|));
    assert s[g] == [];
  }

  /**
   * Removing group g erases exactly its sprites, keeps the partition and
   * erases its name and frame time from the list of groups.
   */
  lemma GroupErasedPartition(sprites: seq<Sprite>, anims: seq<Animation>, g: int)
    requires 0 <= g < |anims| && FramesPartition(anims, |sprites|)
    ensures var r := GroupErased(sprites, anims, g);
      |r.0| == |sprites| - |anims[g].frames|
      && FramesPartition(r.1, |r.0|) && Labels(r.1) == EraseAt(Labels(anims), g)
  {
    assert Pending(anims, g, 0) == anims;
    EraseRoundsPartition(sprites, anims, g, 0);
    var r := EraseRounds(sprites, anims, g, 0);
    EraseEmptyGroup(r.0, r.1, g);
  }

  /** Removing group g leaves every other group showing the sprites it showed. */
  lemma GroupErasedShown(sprites: seq<Sprite>, anims: seq<Animation>, g: int)
    requires 0 <= g < |anims| && FramesPartition(anims, |sprites|)
    ensures FramesBelow(anims, |sprites|)
    ensures var r := GroupErased(sprites, anims, g);
      FramesBelow(r.1, |r.0|) && Shown(r.0, r.1) == EraseAt(Shown(sprites, anims), g)
  {
    assert Pending(anims, g, 0) == anims;
    EraseRoundsPartition(sprites, anims, g, 0);
    PartitionBelow(anims, |sprites|);
    EraseRoundsShown(sprites, anims, g, 0);
    var r := EraseRounds(sprites, anims, g, 0);
    EraseEmptyGroup(r.0, r.1, g);
    EraseAtUpdate(Shown(sprites, anims), g, []);
  }

  /** A second update of position g replaces the first. */
  lemma UpdateTwice<T>(s: seq<T>, g: int, x: T, y: T)
    requires 0 <= g < |s|
    ensures s[g := x][g := y] == s[g := y]
  {
  }

  /** A new group without frames changes no frame and shows nothing. */
  lemma NewGroupKeepsPartition(sprites: seq<Sprite>, anims: seq<Animation>, name: string, frameTime: real)
    requires FramesPartition(anims, |sprites|)
    ensures var b := anims + [Animation(name, frameTime, [])];
      FramesPartition(b, |sprites|) && FramesBelow(anims, |sprites|) && FramesBelow(b, |sprites|)
      && Shown(sprites, b) == Shown(sprites, anims) + [[]]
  {
    var b := anims + [Animation(name, frameTime, [])];
    assert b[..|b| - 1] == anims;
    PartitionBelow(anims, |sprites|);
    PartitionBelow(b, |sprites|);
    var l, r := Shown(sprites, b), Shown(sprites, anims) + [[]];
    forall h | 0 <= h < |b|
      ensures l[h] == r[h]
    {
    }
  }

  /** A group's frames can be replaced by a permutation of them without touching the partition. */
  lemma PermuteGroupKeepsPartition(n: nat, anims: seq<Animation>, g: int, fs: seq<int>)
    requires FramesPartition(anims, n) && 0 <= g < |anims|
    requires multiset(fs) == multiset(anims[g].frames)
    ensures FramesPartition(anims[g := anims[g].(frames := fs)], n)
  {
    ReplaceGroupFrames(anims, g, fs);
    GroupWithinAll(anims, g);
    PutBack(multiset(AllFrames(anims)), multiset(anims[g].frames));
  }

  /** Multiset arithmetic behind PermuteGroupKeepsPartition. */
  lemma PutBack(whole: multiset<int>, group: multiset<int>)
    requires group <= whole
    ensures whole - group + group == whole
  {
    forall y
      ensures (whole - group + group)[y] == whole[y]
    {
    }
  }

  /** Exchanging two frames of a group keeps the partition and exchanges what they show. */
  lemma SwapKeepsPartition(sprites: seq<Sprite>, anims: seq<Animation>, g: int, i: int, j: int)
    requires FramesPartition(anims, |sprites|)
    requires 0 <= g < |anims| && 0 <= i < |anims[g].frames| && 0 <= j < |anims[g].frames|
    ensures var b := anims[g := anims[g].(frames := Swap(anims[g].frames, i, j))];
      FramesPartition(b, |sprites|) && FramesBelow(anims, |sprites|) && FramesBelow(b, |sprites|)
      && Shown(sprites, b) == Shown(sprites, anims)[g := Swap(Shown(sprites, anims)[g], i, j)]
  {
    var fs := anims[g].frames;
    PermuteGroupKeepsPartition(|sprites|, anims, g, Swap(fs, i, j));
    PartitionBelow(anims, |sprites|);
    ShownSwap(sprites, fs, i, j);
    ShownUpdate(sprites, anims, g, Swap(fs, i, j));
  }

  /**
   * What the editor's selection must satisfy for the "Sprites" window: it
   * names a group, and a frame of that group unless it is 0.
   */
  predicate SelectionValid(atlas: Atlas)
    reads atlas`animations, atlas`selectedAnim, atlas`selectedSprite
  {
    atlas.selectedAnim < |atlas.animations|
    && (atlas.selectedSprite == 0 || atlas.selectedSprite < |atlas.animations[atlas.selectedAnim].frames|)
  }

  /**
   * The end of the "Animation Groups" window: when the group chosen during
   * this frame differs from the selected one, it becomes the selected one
   * and the selected frame resets to 0.
   */
  method ApplySelection(atlas: Atlas, chosen: nat)
    modifies atlas`selectedAnim, atlas`selectedSprite
    ensures atlas.selectedAnim == chosen
    ensures chosen != old(atlas.selectedAnim) ==> atlas.selectedSprite == 0
    ensures chosen == old(atlas.selectedAnim) ==> atlas.selectedSprite == old(atlas.selectedSprite)
    ensures forall cands :: RenderedFrom(atlas, cands) == old(RenderedFrom(atlas, cands))
  {
    if chosen != atlas.selectedAnim {
      atlas.selectedAnim := chosen;
      atlas.selectedSprite := 0;
    }
  }

  /** Clicking group i in the list of groups selects it. */
  method SelectAnimation(atlas: Atlas, i: nat)
    requires i < |atlas.animations|
    modifies atlas`selectedAnim, atlas`selectedSprite
    ensures atlas.selectedAnim == i
    ensures i != old(atlas.selectedAnim) ==> atlas.selectedSprite == 0
    ensures i == old(atlas.selectedAnim) ==> atlas.selectedSprite == old(atlas.selectedSprite)
    ensures old(SelectionValid(atlas)) ==> SelectionValid(atlas)
  {
    ApplySelection(atlas, i);
  }

  /**
   * "New Animation": appends an empty group named untitled_anim with the
   * last group's frame time and moves the selection one group down.
   */
  method NewAnimation(atlas: Atlas)
    modifies atlas`animations, atlas`selectedAnim, atlas`selectedSprite
    ensures atlas.animations == old(atlas.animations) + [Animation(NewGroupName, LastFrameTime(old(atlas.animations)), [])]
    ensures atlas.selectedAnim == old(atlas.selectedAnim) + 1 && atlas.selectedSprite == 0
    ensures old(atlas.FramesValid()) ==> atlas.FramesValid()
    ensures old(SelectionValid(atlas)) ==> SelectionValid(atlas)
  {
    var frameTime := 0.0;
    if |atlas.animations| > 0 {
      frameTime := atlas.animations[|atlas.animations| - 1].frameTime;
    }
    if atlas.FramesValid() {
      NewGroupKeepsPartition(atlas.sprites, atlas.animations, NewGroupName, frameTime);
    }
    atlas.animations := atlas.animations + [Animation(NewGroupName, frameTime, [])];
    ApplySelection(atlas, atlas.selectedAnim + 1);
  }

  /**
   * The nested loop both remove buttons run once sprite `removed` is gone:
   * every frame index at or above it, in every group, goes down by one. The
   * loop runs over a copy of the groups that the caller stores back.
   */
  method ShiftFrameIndices(anims: seq<Animation>, removed: int) returns (r: seq<Animation>)
    ensures r == Renumbered(anims, removed)
  {
    r := anims;
    var i := 0;
    while i < |r|
      invariant 0 <= i <= |r| == |anims|
      invariant forall h :: 0 <= h < i ==> r[h] == anims[h].(frames := ShiftFrames(anims[h].frames, removed))
      invariant forall h :: i <= h < |anims| ==> r[h] == anims[h]
    {
      var j := 0;
      while j < |r[i].frames|
        invariant |r| == |anims|
        invariant 0 <= j <= |r[i].frames| == |anims[i].frames|
        invariant r[i].name == anims[i].name && r[i].frameTime == anims[i].frameTime
        invariant forall t :: 0 <= t < j ==> r[i].frames[t] == ShiftFrame(anims[i].frames[t], removed)
        invariant forall t :: j <= t < |anims[i].frames| ==> r[i].frames[t] == anims[i].frames[t]
        invariant forall h :: 0 <= h < i ==> r[h] == anims[h].(frames := ShiftFrames(anims[h].frames, removed))
        invariant forall h :: i < h < |anims| ==> r[h] == anims[h]
      {
        var anim := r[i];
        var frame := anim.frames[j];
        if frame >= removed {
          r := r[i := anim.(frames := anim.frames[j := frame - 1])];
        }
        j := j + 1;
      }
      assert r[i].frames == ShiftFrames(anims[i].frames, removed);
      i := i + 1;
    }
  }

  /**
   * The data half of the "Remove" button of the "Animation Groups" window,
   * on copies of the sprites and groups: the sprites of group g are erased
   * one at a time, each time re-reading the group's next frame after the
   * previous erasure renumbered it, and then the group itself is erased.
   */
  method EraseGroup(sprites: seq<Sprite>, anims: seq<Animation>, g: nat) returns (rs: seq<Sprite>, ra: seq<Animation>)
    requires g < |anims| && FramesPartition(anims, |sprites|)
    ensures (rs, ra) == GroupErased(sprites, anims, g)
  {
    rs, ra := sprites, anims;
    var m := |anims[g].frames|;
    assert Pending(anims, g, 0) == anims;
    var k := 0;
    while k < m
      invariant 0 <= k <= m && |ra| == |anims| && |ra[g].frames| == m
      invariant FramesPartition(Pending(ra, g, k), |rs|)
      invariant EraseRounds(rs, ra, g, k) == EraseRounds(sprites, anims, g, 0)
    {
      var removed := ra[g].frames[k];
      EraseGroupPartition(|rs|, ra, g, k);
      rs := EraseAt(rs, removed);
      ra := ShiftFrameIndices(ra, removed);
      k := k + 1;
    }
    ra := EraseAt(ra, g);
  }

  /**
   * What the "Remove" button does to the atlas' data before the selection
   * moves: group g and its sprites are erased, and the candidates are
   * rebuilt from the remaining sprites and rendered.
   */
  method RemoveGroup(atlas: Atlas, g: nat)
    requires 0 < g < |atlas.animations|
    requires atlas.FramesValid() && atlas.TextureValid()
    modifies atlas`animations, atlas`sprites
    modifies atlas`renderSprites, atlas`width, atlas`height, atlas`texture, atlas`texturesCreated, atlas`drawn
    ensures atlas.TextureValid()
    ensures (atlas.sprites, atlas.animations) == GroupErased(old(atlas.sprites), old(atlas.animations), g)
    ensures multiset(Keys(atlas.renderSprites)) == multiset(Keys(Candidates(atlas.sprites, atlas.padding)))
    ensures RenderedFrom(atlas, Candidates(atlas.sprites, atlas.padding))
  {
    var rs, ra := EraseGroup(atlas.sprites, atlas.animations, g);
    atlas.sprites, atlas.animations := rs, ra;
    var defined := atlas.Rerender();
  }

  /**
   * The "Remove" button of the "Animation Groups" window. Group 0 is never
   * removed. Otherwise EraseGroup takes out the selected group and its
   * sprites, the candidates are rebuilt and rendered, and the selection
   * moves back one group.
   */
  method RemoveAnimation(atlas: Atlas)
    requires atlas.FramesValid() && atlas.TextureValid()
    modifies atlas`animations, atlas`sprites, atlas`selectedAnim, atlas`selectedSprite
    modifies atlas`renderSprites, atlas`width, atlas`height, atlas`texture, atlas`texturesCreated, atlas`drawn
    ensures atlas.TextureValid()
    ensures var g := old(atlas.selectedAnim);
      !(0 < g < |old(atlas.animations)|) ==>
        atlas.sprites == old(atlas.sprites) && atlas.animations == old(atlas.animations)
        && atlas.selectedAnim == g && atlas.selectedSprite == old(atlas.selectedSprite)
        && atlas.renderSprites == old(atlas.renderSprites)
    ensures var g := old(atlas.selectedAnim);
      0 < g < |old(atlas.animations)| ==>
        (atlas.sprites, atlas.animations) == GroupErased(old(atlas.sprites), old(atlas.animations), g)
        && atlas.selectedAnim == g - 1 && atlas.selectedSprite == 0
        && multiset(Keys(atlas.renderSprites)) == multiset(Keys(Candidates(atlas.sprites, atlas.padding)))
        && RenderedFrom(atlas, Candidates(atlas.sprites, atlas.padding))
    ensures old(SelectionValid(atlas)) ==> SelectionValid(atlas)
  {
    var g := atlas.selectedAnim;
    if 0 < g < |atlas.animations| {
      RemoveGroup(atlas, g);
      ApplySelection(atlas, g - 1);
    }
  }

  /**
   * "Up" in the "Sprites" window: the selected frame changes places with
   * the one before it, and the selection follows it.
   */
  method MoveFrameUp(atlas: Atlas)
    requires atlas.selectedAnim < |atlas.animations|
    requires var fs := atlas.animations[atlas.selectedAnim].frames;
      atlas.selectedSprite > 0 && |fs| > 0 ==> atlas.selectedSprite < |fs|
    modifies atlas`animations, atlas`selectedSprite
    ensures var g, sel := atlas.selectedAnim, old(atlas.selectedSprite);
      var a := old(atlas.animations);
      sel > 0 && |a[g].frames| > 0 ==>
        atlas.animations == a[g := a[g].(frames := Swap(a[g].frames, sel, sel - 1))]
        && atlas.selectedSprite == sel - 1
    ensures var g, sel := atlas.selectedAnim, old(atlas.selectedSprite);
      !(sel > 0 && |old(atlas.animations)[g].frames| > 0) ==>
        atlas.animations == old(atlas.animations) && atlas.selectedSprite == sel
    ensures old(SelectionValid(atlas)) ==> SelectionValid(atlas)
  {
    var g, sel := atlas.selectedAnim, atlas.selectedSprite;
    var anims := atlas.animations;
    var fs := anims[g].frames;
    if sel > 0 && |fs| > 0 {
      atlas.animations := anims[g := anims[g].(frames := Swap(fs, sel, sel - 1))];
      atlas.selectedSprite := sel - 1;
    }
  }

  /**
   * "Down" in the "Sprites" window: the selected frame changes places with
   * the one after it, and the selection follows it. The C++ guard compares
   * against `size() - 1` on an unsigned size, which wraps for an empty
   * group; its second conjunct rejects that case, as here.
   */
  method MoveFrameDown(atlas: Atlas)
    requires atlas.selectedAnim < |atlas.animations|
    modifies atlas`animations, atlas`selectedSprite
    ensures var g, sel := atlas.selectedAnim, old(atlas.selectedSprite);
      var a := old(atlas.animations);
      sel + 1 < |a[g].frames| ==>
        atlas.animations == a[g := a[g].(frames := Swap(a[g].frames, sel, sel + 1))]
        && atlas.selectedSprite == sel + 1
    ensures var g, sel := atlas.selectedAnim, old(atlas.selectedSprite);
      !(sel + 1 < |old(atlas.animations)[g].frames|) ==>
        atlas.animations == old(atlas.animations) && atlas.selectedSprite == sel
    ensures old(SelectionValid(atlas)) ==> SelectionValid(atlas)
  {
    var g, sel := atlas.selectedAnim, atlas.selectedSprite;
    var anims := atlas.animations;
    var fs := anims[g].frames;
    if sel < |fs| - 1 && |fs| > 0 {
      atlas.animations := anims[g := anims[g].(frames := Swap(fs, sel, sel + 1))];
      atlas.selectedSprite := sel + 1;
    }
  }

  /**
   * Frame k of group g leaves its group, its sprite leaves the atlas and
   * every frame past that sprite moves down by one.
   */
  method EraseFrame(atlas: Atlas, g: nat, k: nat)
    requires g < |atlas.animations| && k < |atlas.animations[g].frames|
    requires atlas.FramesValid()
    modifies atlas`animations, atlas`sprites
    ensures var removed := old(atlas.animations)[g].frames[k];
      0 <= removed < |old(atlas.sprites)|
      && atlas.sprites == EraseAt(old(atlas.sprites), removed)
      && atlas.animations == Renumbered(WithoutFrame(old(atlas.animations), g, k), removed)
  {
    var anims, sprites := atlas.animations, atlas.sprites;
    var removed := anims[g].frames[k];
    FrameInRange(anims, |sprites|, g, k);
    var erased := EraseAt(sprites, removed);
    var shifted := ShiftFrameIndices(WithoutFrame(anims, g, k), removed);
    atlas.animations, atlas.sprites := shifted, erased;
  }

  /** The selection moves back one frame unless it is on the first; the rendering is left alone. */
  method SelectPreviousFrame(atlas: Atlas)
    modifies atlas`selectedSprite
    ensures atlas.selectedSprite == if old(atlas.selectedSprite) > 0 then old(atlas.selectedSprite) - 1 else 0
    ensures forall cands :: RenderedFrom(atlas, cands) == old(RenderedFrom(atlas, cands))
  {
    if atlas.selectedSprite > 0 {
      atlas.selectedSprite := atlas.selectedSprite - 1;
    }
  }

  /**
   * What "Remove" in the "Sprites" window does to the atlas' data before
   * the selection moves: EraseFrame, then the candidates are rebuilt from
   * the remaining sprites and rendered.
   */
  method EraseAndRerender(atlas: Atlas, g: nat, k: nat)
    requires g < |atlas.animations| && k < |atlas.animations[g].frames|
    requires atlas.FramesValid() && atlas.TextureValid()
    modifies atlas`animations, atlas`sprites
    modifies atlas`renderSprites, atlas`width, atlas`height, atlas`texture, atlas`texturesCreated, atlas`drawn
    ensures atlas.TextureValid()
    ensures var removed := old(atlas.animations)[g].frames[k];
      0 <= removed < |old(atlas.sprites)|
      && atlas.sprites == EraseAt(old(atlas.sprites), removed)
      && atlas.animations == Renumbered(WithoutFrame(old(atlas.animations), g, k), removed)
    ensures multiset(Keys(atlas.renderSprites)) == multiset(Keys(Candidates(atlas.sprites, atlas.padding)))
    ensures RenderedFrom(atlas, Candidates(atlas.sprites, atlas.padding))
  {
    EraseFrame(atlas, g, k);
    var defined := atlas.Rerender();
  }

  /**
   * "Remove" in the "Sprites" window: the selected frame leaves its group,
   * its sprite leaves the atlas, every frame past that sprite moves down by
   * one, the candidates are rebuilt and rendered, and the selection moves
   * back one frame unless it is the first. RemoveFrameKeepsPartition states
   * what the new groups show.
   */
  method RemoveFrame(atlas: Atlas)
    requires atlas.selectedAnim < |atlas.animations|
    requires atlas.FramesValid() && atlas.TextureValid()
    modifies atlas`animations, atlas`sprites, atlas`selectedSprite
    modifies atlas`renderSprites, atlas`width, atlas`height, atlas`texture, atlas`texturesCreated, atlas`drawn
    ensures atlas.TextureValid()
    ensures var g, sel := atlas.selectedAnim, old(atlas.selectedSprite);
      var fs := old(atlas.animations)[g].frames;
      sel < |fs| ==>
        0 <= fs[sel] < |old(atlas.sprites)|
        && atlas.sprites == EraseAt(old(atlas.sprites), fs[sel])
        && atlas.animations == Renumbered(WithoutFrame(old(atlas.animations), g, sel), fs[sel])
        && atlas.selectedSprite == (if sel > 0 then sel - 1 else 0)
        && multiset(Keys(atlas.renderSprites)) == multiset(Keys(Candidates(atlas.sprites, atlas.padding)))
        && RenderedFrom(atlas, Candidates(atlas.sprites, atlas.padding))
    ensures var g, sel := atlas.selectedAnim, old(atlas.selectedSprite);
      !(sel < |old(atlas.animations)[g].frames|) ==>
        atlas.sprites == old(atlas.sprites) && atlas.animations == old(atlas.animations)
        && atlas.selectedSprite == sel && atlas.renderSprites == old(atlas.renderSprites)
    ensures old(SelectionValid(atlas)) ==> SelectionValid(atlas)
  {
    var g, sel := atlas.selectedAnim, atlas.selectedSprite;
    if sel < |atlas.animations[g].frames| {
      EraseAndRerender(atlas, g, sel);
      SelectPreviousFrame(atlas);
    }
  }
}
