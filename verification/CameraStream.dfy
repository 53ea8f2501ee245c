/** The camera stream object: the refusal count and the supervising loop, and the
    queues its frames are fanned out to. */
module CameraStreams {
  import opened ByteStrings
  import FanOut
  import Motion
  import opened MotionDetection
  import opened Supervision
  import opened Values

  /** The queue of one iteration over the frames. */
  class FrameQueue {
    var items: seq<Bytes>
    ghost var consumer: FanOut.Consumer<Bytes>

    ghost predicate Valid()
      reads this
    {
      consumer.queue == items
    }

    constructor (ghost published: seq<Bytes>)
      ensures Valid() && consumer == FanOut.Joined(published)
    {
      items := [];
      consumer := FanOut.Joined(published);
    }

    /** Put a frame, dropping the oldest if there is no room. */
    method Put(frame: Bytes)
      requires Valid() && consumer.subscribed
      modifies this
      ensures Valid() && consumer == FanOut.Feed(old(consumer), frame)
    {
      if |items| >= FanOut.SUBSCRIBER_QUEUE_SIZE {
        items := items[1..];
      }
      items := items + [frame];
      consumer := FanOut.Feed(consumer, frame);
    }

    /** Nothing is returned while the reader has to wait. */
    method Get() returns (frame: Option<Bytes>)
      requires Valid()
      modifies this
      ensures Valid() && consumer == FanOut.Take(old(consumer))
      ensures frame == if old(items) == [] then None else Some(old(items)[0])
    {
      consumer := FanOut.Take(consumer);
      if items == [] {
        return None;
      }
      frame := Some(items[0]);
      items := items[1..];
    }
  }

  class CameraStream {
    const settings: Settings
    const stallTimeout: real
    const motion: MotionDetector
    var busyRefusals: nat
    var lastFrame: Option<Bytes>
    var lastFrameAt: real
    var firstFrame: bool
    var subscribers: set<FrameQueue>
    /** Every frame published, how often listeners were notified on account of one,
        the notices of a change in `needs_power_cycle`, and the waits between
        sessions. */
    ghost var published: seq<Bytes>
    ghost var frameNotices: nat
    ghost var notices: seq<bool>
    ghost var waits: seq<real>

    /** Each subscriber's queue and history are sound, and a new one would start
        with the last frame. */
    ghost predicate Valid()
      reads this, subscribers
    {
      && (forall q :: q in subscribers ==>
            q.Valid() && q.consumer.subscribed && FanOut.Sound(published, q.consumer))
      && lastFrame == (if published == [] then None else Some(published[|published| - 1]))
    }

    constructor (settings: Settings, stallTimeout: real, sensitivity: real, holdSeconds: real)
      ensures Valid() && this.settings == settings && this.stallTimeout == stallTimeout
      ensures subscribers == {} && published == [] && frameNotices == 0 && !firstFrame
      ensures busyRefusals == 0 && notices == [] && waits == []
      ensures fresh(motion) && motion.Snapshot() == Motion.IDLE
    {
      this.settings, this.stallTimeout := settings, stallTimeout;
      motion := new MotionDetector(sensitivity, holdSeconds);
      busyRefusals, lastFrame, lastFrameAt, firstFrame, subscribers := 0, None, 0.0, false, {};
      published, frameNotices, notices, waits := [], 0, [], [];
    }

    // ------------------------------------------------------------ frames

    /** Start an iteration over the frames: its queue, and what it hands over at
        once. */
    method Subscribe() returns (queue: FrameQueue, first: Option<Bytes>)
      requires Valid()
      modifies this`subscribers
      ensures Valid() && fresh(queue) && subscribers == old(subscribers) + {queue}
      ensures queue.consumer == FanOut.Joined(published)
      ensures first == lastFrame
      ensures queue.consumer.seen == (if first == None then [] else [first.value])
    {
      queue := new FrameQueue(published);
      FanOut.JoinedIsSound(published);
      subscribers := subscribers + {queue};
      first := lastFrame;
    }

    method Unsubscribe(queue: FrameQueue)
      requires Valid()
      modifies this`subscribers
      ensures Valid() && subscribers == old(subscribers) - {queue}
    {
      subscribers := subscribers - {queue};
    }

    /** One read by a subscriber: the oldest queued frame, which is one of the two
        newest published. */
    method ReadFrom(queue: FrameQueue) returns (frame: Option<Bytes>)
      requires Valid() && queue in subscribers
      modifies queue
      ensures Valid() && queue.consumer == FanOut.Take(old(queue.consumer))
      ensures frame.None? <==> old(queue.items) == []
      ensures frame.Some? ==>
        frame.value in published[Max(0, |published| - 2)..]
    {
      FanOut.TakeKeepsSound(published, queue.consumer);
      frame := queue.Get();
      hide FanOut.SeenInOrder, FanOut.StartsAtLast, FanOut.Accounted;
    }

    method PutToAll(frame: Bytes)
      requires forall q :: q in subscribers ==> q.Valid() && q.consumer.subscribed
      modifies subscribers
      ensures forall q :: q in subscribers ==>
                q.Valid() && q.consumer == FanOut.Feed(old(q.consumer), frame)
    {
      hide FanOut.Feed;
      var left := subscribers;
      while left != {}
        invariant left <= subscribers
        invariant forall q :: q in subscribers ==> q.Valid()
        invariant forall q :: q in subscribers ==>
          q.consumer == if q in left then old(q.consumer)
                        else FanOut.Feed(old(q.consumer), frame)
        decreases left
      {
        var q :| q in left;
        q.Put(frame);
        left := left - {q};
      }
    }

    /** A stream is live while the last frame is younger than the stall timeout. */
    predicate Streaming(now: real)
      reads this`lastFrameAt
    {
      lastFrameAt > 0.0 && now - lastFrameAt < stallTimeout
    }

    /** One frame off the session, with the clock as it is read on the way: for the
        state of the stream, for the frame, and by the motion detector. Listeners
        are notified when the stream comes up and when motion changes. */
    method OnFrame(frame: Bytes, asked: real, now: real, sampled: real)
      requires Valid()
      modifies this`lastFrame, this`lastFrameAt, this`firstFrame, this`published
      modifies this`frameNotices, motion, subscribers
      ensures Valid()
      ensures published == old(published) + [frame]
      ensures lastFrame == Some(frame) && lastFrameAt == now && firstFrame
      ensures motion.Snapshot()
              == Motion.Sample(motion.Settings(), old(motion.Snapshot()), |frame|, sampled)
      ensures frameNotices
              == old(frameNotices)
                 + (if old(lastFrameAt) > 0.0 && asked - old(lastFrameAt) < stallTimeout then 0
                    else 1)
                 + (if motion.detected == old(motion.detected) then 0 else 1)
      ensures forall q :: q in subscribers ==>
                q.consumer == FanOut.Feed(old(q.consumer), frame)
    {
      var wasStreaming := Streaming(asked);
      lastFrame, lastFrameAt := Some(frame), now;
      ghost var wasMotion := motion.detected;
      motion.Sample(|frame|, sampled);
      if motion.detected != wasMotion {
        frameNotices := frameNotices + 1;
      }
      Publish(frame);
      firstFrame := true;
      if !wasStreaming {
        frameNotices := frameNotices + 1;
      }
    }

    method Publish(frame: Bytes)
      requires lastFrame == Some(frame)
      requires forall q :: q in subscribers ==>
                 q.Valid() && q.consumer.subscribed && FanOut.Sound(published, q.consumer)
      modifies this`published, subscribers
      ensures Valid() && published == old(published) + [frame]
      ensures forall q :: q in subscribers ==>
                q.consumer == FanOut.Feed(old(q.consumer), frame)
    {
      PutToAll(frame);
      forall q | q in subscribers
        ensures FanOut.Sound(published + [frame], q.consumer) && q.consumer.subscribed
      {
        FanOut.FeedKeepsSound(published, old(q.consumer), frame);
      }
      published := published + [frame];
    }

    // ------------------------------------------------------- supervision

    predicate NeedsCycle()
      reads this`busyRefusals
    {
      NeedsPowerCycle(settings, busyRefusals)
    }

    method NoteRefusal()
      modifies this`busyRefusals, this`notices
      ensures busyRefusals == old(busyRefusals) + 1
      ensures notices
              == old(notices) + if busyRefusals == settings.busyLimit then [true] else []
    {
      busyRefusals := busyRefusals + 1;
      if busyRefusals != settings.busyLimit {
        return;
      }
      notices := notices + [NeedsCycle()];
    }

    method ClearRefusals()
      modifies this`busyRefusals, this`notices
      ensures busyRefusals == 0
      ensures notices == old(notices) + if old(NeedsCycle()) then [NeedsCycle()] else []
    {
      var wasStuck := NeedsCycle();
      busyRefusals := 0;
      if wasStuck {
        notices := notices + [NeedsCycle()];
      }
    }

    /** What follows one session: its outcome is judged, and the wait and the next
        backoff are worked out. */
    method TakeTurn(outcome: Outcome, backoff: real) returns (next: real)
      modifies this`busyRefusals, this`notices, this`waits
      ensures Supervisor(busyRefusals, next, notices, waits)
              == Turn(settings, old(Supervisor(busyRefusals, backoff, notices, waits)), outcome)
    {
      next := backoff;
      var streamed := outcome == Streamed;
      if outcome == Busy {
        NoteRefusal();
      } else if outcome == Failed {
        ClearRefusals();
      }
      if streamed {
        next := settings.retryMin;
        ClearRefusals();
      }
      var wait := next + settings.cooldown;
      if NeedsCycle() {
        wait := settings.refusedRetry;
      }
      waits := waits + [wait];
      next := MinReal(next * 2.0, settings.retryMax);
    }

    /** The supervising loop until it is asked to stop, over the outcomes of its
        sessions. */
    method Supervise(outcomes: seq<Outcome>)
      modifies this`busyRefusals, this`notices, this`waits
      ensures var s := Run(settings, old(busyRefusals), outcomes);
              && busyRefusals == s.busyRefusals
              && notices == old(notices) + s.notices
              && waits == old(waits) + s.waits
    {
      hide Turn;
      var backoff := settings.retryMin;
      for i := 0 to |outcomes|
        invariant var s := Run(settings, old(busyRefusals), outcomes[..i]);
                  Supervisor(busyRefusals, backoff, notices, waits)
                  == s.(notices := old(notices) + s.notices, waits := old(waits) + s.waits)
      {
        RunNext(settings, old(busyRefusals), outcomes, i);
        TurnAfter(settings, Run(settings, old(busyRefusals), outcomes[..i]), outcomes[i],
                  old(notices), old(waits));
        backoff := TakeTurn(outcomes[i], backoff);
      }
      assert outcomes[..|outcomes|] == outcomes;
    }
  }
}
