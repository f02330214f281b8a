/** A Formal20 contact trace and the masks the Stage 16-D audits read off it. */
module ContactTrace {
  import opened Masks
  import Persistence

  /** Frames by episodes by fingers; `distance` is the frozen reference, frames by fingers. */
  datatype Trace = Trace(
    frames: nat, episodes: nat, fingers: nat,
    distance: seq<seq<real>>,
    actual: seq<seq<seq<bool>>>,
    valid: seq<seq<bool>>,
    magnitude: seq<seq<seq<real>>>)
  {
    /** The shape checks of the loaders, for any sizes. */
    predicate Shaped() {
      && |distance| == frames && (forall t :: 0 <= t < frames ==> |distance[t]| == fingers)
      && |actual| == frames && (forall t :: 0 <= t < frames ==> |actual[t]| == episodes)
      && (forall t, e :: 0 <= t < frames && 0 <= e < episodes ==> |actual[t][e]| == fingers)
      && |valid| == frames && (forall t :: 0 <= t < frames ==> |valid[t]| == episodes)
      && |magnitude| == frames && (forall t :: 0 <= t < frames ==> |magnitude[t]| == episodes)
      && (forall t, e :: 0 <= t < frames && 0 <= e < episodes ==> |magnitude[t][e]| == fingers)
    }

    predicate Sample(t: int, e: int) { 0 <= t < frames && 0 <= e < episodes }

    /** The validity contract of the loaders: every frame but the reset frame is valid. */
    ghost predicate OnlyResetInvalid()
      requires Shaped()
    {
      forall t, e :: Sample(t, e) ==> valid[t][e] == (t != 0)
    }

    /** `_reference_evidence`, one frame and finger. */
    predicate Expected(t: nat, f: nat)
      requires Shaped() && t < frames && f < fingers
    { distance[t][f] < 0.03 }

    predicate Strong(t: nat, f: nat)
      requires Shaped() && t < frames && f < fingers
    { distance[t][f] <= 0.02 }

    predicate Ambiguous(t: nat, f: nat)
      requires Shaped() && t < frames && f < fingers
    { Expected(t, f) && !Strong(t, f) }

    /** `_actual_valid_contact`: raw presence counts only on valid samples. */
    predicate Contact(t: nat, e: nat, f: nat)
      requires Shaped() && Sample(t, e) && f < fingers
    { actual[t][e][f] && valid[t][e] }

    function ExpectedMask(f: nat): (m: Mask)
      requires Shaped() && f < fingers
      ensures |m| == frames
    { seq(frames, t requires 0 <= t < frames => Expected(t, f)) }

    function StrongMask(f: nat): (m: Mask)
      requires Shaped() && f < fingers
      ensures |m| == frames
    { seq(frames, t requires 0 <= t < frames => Strong(t, f)) }

    function AmbiguousMask(f: nat): (m: Mask)
      requires Shaped() && f < fingers
      ensures |m| == frames
    { seq(frames, t requires 0 <= t < frames => Ambiguous(t, f)) }

    function UsableMask(e: nat): (m: Mask)
      requires Shaped() && e < episodes
      ensures |m| == frames
    { seq(frames, t requires 0 <= t < frames => valid[t][e]) }

    function ContactMask(e: nat, f: nat): (m: Mask)
      requires Shaped() && e < episodes && f < fingers
      ensures |m| == frames
    { seq(frames, t requires 0 <= t < frames => Contact(t, e, f)) }
  }

  /** The loaders' validity is the one under which V3's and V4's filter orders are compared. */
  lemma UsableIsOnlyReset(tr: Trace, e: nat)
    requires tr.Shaped() && tr.OnlyResetInvalid() && e < tr.episodes
    ensures tr.UsableMask(e) == Persistence.OnlyResetInvalid(tr.frames)
  {
    assert forall t :: 0 <= t < tr.frames ==> tr.Sample(t, e);
  }
}
