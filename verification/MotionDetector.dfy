/** The motion detector object: each method is proved to make the transition of
    module Motion of the same name. `now` is what the clock reads. */
module MotionDetection {
  import Motion

  class MotionDetector {
    const sensitivity: real
    const holdSeconds: real
    var previousSize: nat
    var typicalDifference: real
    var frames: nat
    var exceeded: nat
    var motionUntil: real
    var detected: bool
    var lastDifference: real
    /** What the consumer was called with. */
    ghost var callbacks: seq<bool>

    ghost function Snapshot(): Motion.Detector
      reads this
    {
      Motion.Detector(previousSize, typicalDifference, frames, exceeded, motionUntil, detected,
                      lastDifference, callbacks)
    }

    ghost function Settings(): Motion.Config { Motion.Config(sensitivity, holdSeconds) }

    constructor (sensitivity: real, holdSeconds: real)
      ensures Snapshot() == Motion.IDLE && Settings() == Motion.Config(sensitivity, holdSeconds)
    {
      this.sensitivity, this.holdSeconds := sensitivity, holdSeconds;
      previousSize, typicalDifference, frames, exceeded := 0, 0.0, 0, 0;
      motionUntil, detected, lastDifference, callbacks := 0.0, false, 0.0, [];
    }

    method Sample(frameSize: nat, now: real)
      modifies this
      ensures Snapshot() == Motion.Sample(Settings(), old(Snapshot()), frameSize, now)
    {
      hide Motion.Difference, Motion.Threshold, Motion.Averaged, Motion.Smoothed;
      var previous := previousSize;
      previousSize := frameSize;
      if previous == 0 || frameSize == 0 {
        return;
      }
      var difference := Motion.Difference(frameSize, previous);
      lastDifference := difference;
      frames := frames + 1;
      if frames <= Motion.WARMUP_FRAMES {
        typicalDifference := Motion.Averaged(typicalDifference, difference, frames);
        return;
      }
      var threshold :=
        Motion.Threshold(Motion.Config(sensitivity, holdSeconds), typicalDifference);
      if difference > threshold {
        exceeded := exceeded + 1;
        if exceeded >= Motion.CONFIRMING_FRAMES {
          motionUntil := now + holdSeconds;
        }
      } else {
        exceeded := 0;
        typicalDifference := Motion.Smoothed(typicalDifference, difference);
      }
      Publish(now < motionUntil);
    }

    method Poll(now: real)
      modifies this
      ensures Snapshot() == Motion.Poll(old(Snapshot()), now)
    {
      Publish(now < motionUntil);
    }

    method Publish(state: bool)
      modifies this`detected, this`callbacks
      ensures Snapshot() == Motion.Publish(old(Snapshot()), state)
    {
      if state == detected {
        return;
      }
      detected := state;
      callbacks := callbacks + [state];
    }

    method Reset()
      modifies this
      ensures Snapshot() == Motion.Reset(old(Snapshot()))
    {
      previousSize, typicalDifference, frames, exceeded := 0, 0.0, 0, 0;
      motionUntil, lastDifference := 0.0, 0.0;
      Publish(false);
    }
  }
}
