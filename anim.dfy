/**
  The animation store (anim.c): at most 1024 animations, each a list of
  sprite indices held in a 1024-slot frame list whose unused tail is padded
  with the -1 terminator, a frame count and a frame delay.
 */
module Animations {
  import opened Defs

  /** The terminator value of a frame list (anim.h:28). */
  const NO_FRAME: int := -1

  /** anim_type: frame_list, frame_wait, no_of_frames. */
  datatype Anim = Anim(frameList: seq<int>, frameWait: int, noOfFrames: int)

  /** The frame list has its fixed size and the count fits it. */
  predicate WellFormed(a: Anim) {
    |a.frameList| == MAX_ANIMATION_FRAMES && 0 <= a.noOfFrames <= MAX_ANIMATION_FRAMES
  }

  /** Every slot at or beyond the frame count holds the terminator. */
  predicate SentinelInvariant(a: Anim) {
    && WellFormed(a)
    && forall k :: a.noOfFrames <= k < MAX_ANIMATION_FRAMES ==> a.frameList[k] == NO_FRAME
  }

  /** The frames an animation plays, in order. */
  function Frames(a: Anim): (f: seq<int>)
    requires WellFormed(a)
    ensures |f| == a.noOfFrames
    ensures forall k :: 0 <= k < a.noOfFrames ==> f[k] == a.frameList[k]
  {
    a.frameList[..a.noOfFrames]
  }

  /** The record ANI_Add_Animation creates: no frames, a delay of 1, all slots terminated. */
  function EmptyAnim(): (a: Anim)
    ensures SentinelInvariant(a)
    ensures Frames(a) == [] && a.frameWait == 1
  {
    Anim(Fill(MAX_ANIMATION_FRAMES, NO_FRAME), 1, 0)
  }

  /** The successful branch of ANI_Add_Frame: the value goes into the first free slot. */
  function AppendFrame(a: Anim, value: int): (r: Anim)
    requires WellFormed(a) && a.noOfFrames < MAX_ANIMATION_FRAMES
    ensures WellFormed(r)
    ensures Frames(r) == Frames(a) + [value]
    ensures r.frameWait == a.frameWait
    ensures forall k :: a.noOfFrames < k < MAX_ANIMATION_FRAMES ==> r.frameList[k] == a.frameList[k]
  {
    var r := a.(frameList := a.frameList[a.noOfFrames := value], noOfFrames := a.noOfFrames + 1);
    assert Frames(r) == Frames(a) + [value];
    r
  }

  /** ANI_Add_Frame on one record: a full record stays as it is. */
  function AddFrameStep(a: Anim, value: int): (r: Anim)
    requires WellFormed(a)
    ensures WellFormed(r)
    ensures a.noOfFrames < MAX_ANIMATION_FRAMES ==> Frames(r) == Frames(a) + [value]
    ensures a.noOfFrames >= MAX_ANIMATION_FRAMES ==> r == a
  {
    if a.noOfFrames >= MAX_ANIMATION_FRAMES then a else AppendFrame(a, value)
  }

  /**
    A run of ANI_Add_Frame calls on one record: the values are appended in
    order until the frame list is full, and the rest are dropped.
   */
  function AddFrames(a: Anim, values: seq<int>): (r: Anim)
    requires WellFormed(a)
    ensures WellFormed(r) && r.frameWait == a.frameWait
    ensures a.noOfFrames + |values| <= MAX_ANIMATION_FRAMES ==> Frames(r) == Frames(a) + values
    ensures a.noOfFrames + |values| > MAX_ANIMATION_FRAMES ==>
              Frames(r) == (Frames(a) + values)[..MAX_ANIMATION_FRAMES]
    decreases |values|
  {
    if values == [] then
      assert Frames(a) + values == Frames(a);
      a
    else
      var b := AddFrameStep(a, values[0]);
      if a.noOfFrames < MAX_ANIMATION_FRAMES then
        assert (Frames(a) + [values[0]]) + values[1..] == Frames(a) + values;
        AddFrames(b, values[1..])
      else
        assert (Frames(a) + values[1..])[..MAX_ANIMATION_FRAMES] == Frames(a);
        assert (Frames(a) + values)[..MAX_ANIMATION_FRAMES] == Frames(a);
        AddFrames(b, values[1..])
  }

  /** Appending a frame keeps the terminator padding. */
  lemma AppendKeepsSentinel(a: Anim, value: int)
    requires SentinelInvariant(a) && a.noOfFrames < MAX_ANIMATION_FRAMES
    ensures SentinelInvariant(AppendFrame(a, value))
  {
  }

  /**
    After creation and any sequence of ANI_Add_Frame calls, every slot at
    or beyond the frame count holds -1, and the frames are the values
    added, up to the capacity.
   */
  lemma {:induction false} AddFramesKeepSentinel(a: Anim, values: seq<int>)
    requires SentinelInvariant(a)
    ensures SentinelInvariant(AddFrames(a, values))
    ensures a.noOfFrames + |values| <= MAX_ANIMATION_FRAMES ==> Frames(AddFrames(a, values)) == Frames(a) + values
    decreases |values|
  {
    if values != [] {
      var b := AddFrameStep(a, values[0]);
      if a.noOfFrames < MAX_ANIMATION_FRAMES {
        AppendKeepsSentinel(a, values[0]);
      }
      AddFramesKeepSentinel(b, values[1..]);
      if a.noOfFrames + |values| <= MAX_ANIMATION_FRAMES {
        assert Frames(a) + values == (Frames(a) + [values[0]]) + values[1..];
      }
    }
  }

  /** A new animation that is given frames plays exactly those frames. */
  lemma NewAnimationPlaysAddedFrames(values: seq<int>)
    requires |values| <= MAX_ANIMATION_FRAMES
    ensures SentinelInvariant(AddFrames(EmptyAnim(), values))
    ensures Frames(AddFrames(EmptyAnim(), values)) == values
  {
    AddFramesKeepSentinel(EmptyAnim(), values);
  }

  /**
    ANI_Remove_Frame as written: the terminator is stored at the old count
    (one past the last frame) before the count drops, so the removed frame
    stays in its slot; with a full frame list the store falls outside the
    1024-slot array.
   */
  function RemoveLastFrameAsWritten(a: Anim): (r: Access<Anim>)
    requires WellFormed(a)
    ensures a.noOfFrames == 0 ==> r == Value(a)
    ensures a.noOfFrames == MAX_ANIMATION_FRAMES <==> r == OutOfBounds
    ensures 0 < a.noOfFrames < MAX_ANIMATION_FRAMES ==>
              && r.Value? && WellFormed(r.v)
              && r.v.noOfFrames == a.noOfFrames - 1 && r.v.frameWait == a.frameWait
              && r.v.frameList[a.noOfFrames] == NO_FRAME
              && r.v.frameList[a.noOfFrames - 1] == a.frameList[a.noOfFrames - 1]
              && (forall k :: 0 <= k < MAX_ANIMATION_FRAMES && k != a.noOfFrames ==>
                    r.v.frameList[k] == a.frameList[k])
  {
    if a.noOfFrames > 0 then
      if a.noOfFrames < MAX_ANIMATION_FRAMES then
        Value(a.(frameList := a.frameList[a.noOfFrames := NO_FRAME], noOfFrames := a.noOfFrames - 1))
      else OutOfBounds
    else Value(a)
  }

  /**
    One frame added to an empty animation and removed again as written:
    the frame stays in slot 0 beyond the count, and reading slot 0 through
    the loose bound of ANI_Get_Frame returns it.
   */
  lemma RemoveFrameAsWrittenLeavesFrame()
    ensures RemoveLastFrameAsWritten(AppendFrame(EmptyAnim(), 7)).Value?
    ensures !SentinelInvariant(RemoveLastFrameAsWritten(AppendFrame(EmptyAnim(), 7)).v)
    ensures GetFrameAsWritten(RemoveLastFrameAsWritten(AppendFrame(EmptyAnim(), 7)).v, 0) == Value(7)
  {
    var a := AppendFrame(EmptyAnim(), 7);
    assert a.frameList[0] == 7;
    var r := RemoveLastFrameAsWritten(a).v;
    assert r.noOfFrames == 0 && r.frameList[0] == 7;
  }

  /**
    As written, removing the last frame of any padded animation below
    capacity leaves that frame in the slot that is now first past the count,
    so the padding is broken whenever the removed frame was not -1.
   */
  lemma RemoveFrameAsWrittenBreaksSentinel(a: Anim)
    requires SentinelInvariant(a) && 0 < a.noOfFrames < MAX_ANIMATION_FRAMES
    requires a.frameList[a.noOfFrames - 1] != NO_FRAME
    ensures RemoveLastFrameAsWritten(a).Value?
    ensures !SentinelInvariant(RemoveLastFrameAsWritten(a).v)
    ensures GetFrameAsWritten(RemoveLastFrameAsWritten(a).v, a.noOfFrames - 1) == Value(a.frameList[a.noOfFrames - 1])
  {
    var r := RemoveLastFrameAsWritten(a).v;
    assert r.frameList[r.noOfFrames] != NO_FRAME;
  }

  /** As written, removing a frame from a full animation writes past the frame list. */
  lemma RemoveFrameAsWrittenOverflows(a: Anim)
    requires WellFormed(a) && a.noOfFrames == MAX_ANIMATION_FRAMES
    ensures RemoveLastFrameAsWritten(a) == OutOfBounds
  {
  }

  /** ANI_Remove_Frame as intended: the last frame's slot is terminated and the count drops. */
  function RemoveLastFrame(a: Anim): (r: Anim)
    requires WellFormed(a)
    ensures WellFormed(r) && r.frameWait == a.frameWait
    ensures a.noOfFrames > 0 ==> Frames(r) == Frames(a)[..a.noOfFrames - 1]
    ensures a.noOfFrames == 0 ==> r == a
  {
    if a.noOfFrames > 0 then
      a.(frameList := a.frameList[a.noOfFrames - 1 := NO_FRAME], noOfFrames := a.noOfFrames - 1)
    else a
  }

  /** The corrected removal keeps the terminator padding. */
  lemma RemoveKeepsSentinel(a: Anim)
    requires SentinelInvariant(a)
    ensures SentinelInvariant(RemoveLastFrame(a))
  {
  }

  /** Removing the frame just added gives back the animation (when the padding holds). */
  lemma RemoveUndoesAppend(a: Anim, value: int)
    requires SentinelInvariant(a) && a.noOfFrames < MAX_ANIMATION_FRAMES
    ensures RemoveLastFrame(AppendFrame(a, value)) == a
  {
    var r := RemoveLastFrame(AppendFrame(a, value));
    assert r.frameList == a.frameList;
  }

  /**
    ANI_Get_Frame's frame check as written: an index equal to the frame count
    passes, and with a full frame list that index lies past the array.
   */
  function GetFrameAsWritten(a: Anim, frameIndex: int): (r: Access<int>)
    requires WellFormed(a)
    ensures frameIndex < 0 || frameIndex > a.noOfFrames ==> r == Value(NO_FRAME)
    ensures 0 <= frameIndex < a.noOfFrames ==> r == Value(Frames(a)[frameIndex])
    ensures frameIndex == a.noOfFrames < MAX_ANIMATION_FRAMES ==> r == Value(a.frameList[frameIndex])
    ensures frameIndex == a.noOfFrames == MAX_ANIMATION_FRAMES ==> r == OutOfBounds
  {
    if frameIndex < 0 || frameIndex > a.noOfFrames then Value(NO_FRAME)
    else if frameIndex < MAX_ANIMATION_FRAMES then Value(a.frameList[frameIndex])
    else OutOfBounds
  }

  /** The loose bound reads past a full frame list. */
  lemma GetFrameAsWrittenReadsPastList(a: Anim)
    requires WellFormed(a) && a.noOfFrames == MAX_ANIMATION_FRAMES
    ensures GetFrameAsWritten(a, MAX_ANIMATION_FRAMES) == OutOfBounds
  {
  }

  /** ANI_Get_Frame's frame check as intended: only indices of existing frames are read. */
  function GetFrameOf(a: Anim, frameIndex: int): (r: int)
    requires WellFormed(a)
    ensures 0 <= frameIndex < a.noOfFrames ==> r == Frames(a)[frameIndex]
    ensures !(0 <= frameIndex < a.noOfFrames) ==> r == NO_FRAME
  {
    if frameIndex < 0 || frameIndex >= a.noOfFrames then NO_FRAME else a.frameList[frameIndex]
  }

  /**
    Where the padding holds, the loose bound differs from the intended one
    only at a full frame list: below capacity slot no_of_frames holds -1,
    which is what the rejected index returns.
   */
  lemma GetFrameAgrees(a: Anim, frameIndex: int)
    requires SentinelInvariant(a)
    requires frameIndex != MAX_ANIMATION_FRAMES
    ensures GetFrameAsWritten(a, frameIndex) == Value(GetFrameOf(a, frameIndex))
  {
  }

  class AnimationStore {
    const animation: array<Anim>
    var noOfAnimations: int

    ghost predicate Valid()
      reads this, animation
    {
      && animation.Length == MAX_ANIMATIONS
      && 0 <= noOfAnimations <= MAX_ANIMATIONS
      && forall i :: 0 <= i < noOfAnimations ==> SentinelInvariant(animation[i])
    }

    /** The animations that exist, in index order. */
    ghost function Anims(): (s: seq<Anim>)
      reads this, animation
      requires Valid()
      ensures |s| == noOfAnimations
    {
      animation[..noOfAnimations]
    }

    /** An empty store, as the file-scope statics start. */
    constructor ()
      ensures Valid() && fresh(animation) && noOfAnimations == 0
    {
      animation := new Anim[MAX_ANIMATIONS];
      noOfAnimations := 0;
    }

    /**
      ANI_Add_Animation: below capacity appends an animation with no frames,
      a delay of 1 and every slot terminated; at capacity nothing changes.
     */
    method AddAnimation()
      requires Valid()
      modifies this`noOfAnimations, animation
      ensures Valid()
      ensures old(noOfAnimations) < MAX_ANIMATIONS ==> Anims() == old(Anims()) + [EmptyAnim()]
      ensures old(noOfAnimations) >= MAX_ANIMATIONS ==> noOfAnimations == old(noOfAnimations) && unchanged(animation)
    {
      if noOfAnimations < MAX_ANIMATIONS {
        var frameList := new int[MAX_ANIMATION_FRAMES];
        // set all frames to the terminator
        for i := 0 to MAX_ANIMATION_FRAMES
          modifies frameList
          invariant forall k :: 0 <= k < i ==> frameList[k] == NO_FRAME
        {
          frameList[i] := NO_FRAME;
        }
        assert frameList[..] == Fill(MAX_ANIMATION_FRAMES, NO_FRAME);
        animation[noOfAnimations] := Anim(frameList[..], 1, 0);
        noOfAnimations := noOfAnimations + 1;
        assert Anims() == old(Anims()) + [EmptyAnim()];
        return;
      }
    }

    /**
      ANI_Remove_Animation: with more than one animation and an index in
      range, the entry is removed and the later ones move down one place in
      order; otherwise nothing changes. The last animation is never removed.
     */
    method RemoveAnimation(index: int)
      requires Valid()
      modifies this`noOfAnimations, animation
      ensures Valid()
      ensures old(noOfAnimations) > 1 && 0 <= index < old(noOfAnimations) ==>
                && noOfAnimations == old(noOfAnimations) - 1
                && Anims() == old(Anims())[..index] + old(Anims())[index + 1..]
      ensures !(old(noOfAnimations) > 1 && 0 <= index < old(noOfAnimations)) ==>
                noOfAnimations == old(noOfAnimations) && unchanged(animation)
    {
      if noOfAnimations > 1 && index < noOfAnimations && index >= 0 {
        ghost var before := animation[..noOfAnimations];
        // rearrange animation list
        var i := index + 1;
        while i < noOfAnimations
          invariant index + 1 <= i <= noOfAnimations == |before|
          invariant forall k :: 0 <= k < index ==> animation[k] == before[k]
          invariant forall k :: index <= k < i - 1 ==> animation[k] == before[k + 1]
          invariant forall k :: i - 1 <= k < noOfAnimations ==> animation[k] == before[k]
          decreases noOfAnimations - i
        {
          animation[i - 1] := animation[i];
          i := i + 1;
        }
        noOfAnimations := noOfAnimations - 1;
        assert forall k :: 0 <= k < noOfAnimations ==> Anims()[k] == (before[..index] + before[index + 1..])[k];
      }
    }

    /** Number of frames of a valid animation, -1 for a bad index (ANI_Get_Number_Of_Frames). */
    function GetNumberOfFrames(animIndex: int): (n: int)
      reads this, animation
      requires Valid()
      ensures 0 <= animIndex < noOfAnimations ==> n == |Frames(Anims()[animIndex])|
      ensures !(0 <= animIndex < noOfAnimations) ==> n == -1
    {
      if animIndex >= 0 && animIndex < noOfAnimations then animation[animIndex].noOfFrames else -1
    }

    /** ANI_Get_Number_Of_Animations. */
    function GetNumberOfAnimations(): (n: int)
      reads this, animation
      requires Valid()
      ensures 0 <= n <= MAX_ANIMATIONS && n == |Anims()|
    {
      noOfAnimations
    }

    /**
      ANI_Add_Frame: returns 0 and changes nothing for a bad animation index
      or a full frame list; otherwise appends the value to that animation
      only and returns 1.
     */
    method AddFrame(animIndex: int, value: int) returns (ok: int)
      requires Valid()
      modifies animation
      ensures Valid() && noOfAnimations == old(noOfAnimations)
      ensures ok == 1 <==> 0 <= animIndex < noOfAnimations && old(animation[animIndex].noOfFrames) < MAX_ANIMATION_FRAMES
      ensures ok == 0 || ok == 1
      ensures ok == 1 ==> Anims() == old(Anims())[animIndex := AppendFrame(old(animation[animIndex]), value)]
      ensures ok == 1 ==> Frames(Anims()[animIndex]) == Frames(old(Anims())[animIndex]) + [value]
      ensures ok == 0 ==> unchanged(animation)
    {
      if animIndex < 0 || animIndex >= noOfAnimations {
        return 0;
      }
      var temp := animation[animIndex];
      if temp.noOfFrames >= MAX_ANIMATION_FRAMES {
        return 0;
      }
      AppendKeepsSentinel(temp, value);
      animation[animIndex] := AppendFrame(temp, value);
      return 1;
    }

    /**
      ANI_Remove_Frame, with the terminator written at the removed frame's
      slot: a bad index or an animation without frames is left as it is.
     */
    method RemoveFrame(animIndex: int)
      requires Valid()
      modifies animation
      ensures Valid() && noOfAnimations == old(noOfAnimations)
      ensures 0 <= animIndex < noOfAnimations ==>
                Anims() == old(Anims())[animIndex := RemoveLastFrame(old(animation[animIndex]))]
      ensures 0 <= animIndex < noOfAnimations && old(animation[animIndex].noOfFrames) > 0 ==>
                Frames(Anims()[animIndex]) == Frames(old(Anims())[animIndex])[..old(animation[animIndex].noOfFrames) - 1]
      ensures !(0 <= animIndex < noOfAnimations) ==> unchanged(animation)
    {
      if animIndex < 0 || animIndex >= noOfAnimations {
        return;
      }
      var temp := animation[animIndex];
      RemoveKeepsSentinel(temp);
      animation[animIndex] := RemoveLastFrame(temp);
    }

    /** ANI_Get_Frame with the strict frame bound: -1 for a bad animation or frame index. */
    function GetFrame(animIndex: int, frameIndex: int): (f: int)
      reads this, animation
      requires Valid()
      ensures 0 <= animIndex < noOfAnimations && 0 <= frameIndex < |Frames(Anims()[animIndex])| ==>
                f == Frames(Anims()[animIndex])[frameIndex]
      ensures !(0 <= animIndex < noOfAnimations && 0 <= frameIndex < GetNumberOfFrames(animIndex)) ==> f == NO_FRAME
    {
      if animIndex < 0 || animIndex >= noOfAnimations then NO_FRAME
      else GetFrameOf(animation[animIndex], frameIndex)
    }
  }
}
