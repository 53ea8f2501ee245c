/** The relay connection object: the loop that reads its stream, and the write
    side. A finished byte sequence stands for what the socket delivers until it
    ends. */
module RelayConnections {
  import opened ByteStrings
  import opened RelayFraming

  class RelayConnection {
    const tag: Tagger
    const mediaKey: Bytes
    var connected: bool
    var closed: bool
    var segmentHandler: bool
    var closeHandler: bool
    /** What was written to the socket, what the segment handler was called
        with, and how often the close handler was. */
    ghost var written: Bytes
    ghost var handed: seq<Bytes>
    ghost var closeCalls: nat

    constructor (tag: Tagger, mediaKey: Bytes)
      ensures this.tag == tag && this.mediaKey == mediaKey
      ensures !connected && !closed && !segmentHandler && !closeHandler
      ensures written == [] && handed == [] && closeCalls == 0
    {
      this.tag, this.mediaKey := tag, mediaKey;
      connected, closed, segmentHandler, closeHandler := false, false, false, false;
      written, handed, closeCalls := [], [], 0;
    }

    /** Reads until the stream ends, a media frame is bad, or the connection is
        found closed: by then, or after `turns` more frames. Whoever closes it in
        between fires the close handler, if the loop has not done so. */
    method ReadLoop(stream: Bytes, turns: nat) returns (ending: Ending)
      modifies this`handed, this`closed, this`closeHandler, this`closeCalls
      ensures var r := ReadTurns(tag, mediaKey, stream, if old(closed) then 0 else turns);
              && handed == old(handed) + (if segmentHandler then r.segments else [])
              && ending == r.ending
              && closed == (old(closed) || r.ending == Stopped)
      ensures !closeHandler && closeCalls == old(closeCalls) + (if old(closeHandler) then 1 else 0)
    {
      hide UnwrapMediaFrame;
      var rest := stream;
      var left: nat := if closed then 0 else turns;
      ghost var all := ReadTurns(tag, mediaKey, stream, left);
      ghost var segments: seq<Bytes> := [];
      ending := Stopped;
      closed := closed || left == 0;
      while !closed
        invariant all == Reading(segments + ReadTurns(tag, mediaKey, rest, left).segments,
                                 ReadTurns(tag, mediaKey, rest, left).ending)
        invariant handed == old(handed) + (if segmentHandler then segments else [])
        invariant closeHandler == old(closeHandler) && closeCalls == old(closeCalls)
        invariant closed == (old(closed) || left == 0) && ending == Stopped
        decreases |rest|, !closed
      {
        var frame := ReadFrame(rest);
        if frame.None? {
          ending := StreamEnded;
          break;
        }
        if frame.value.magic == FRAME_MEDIA {
          var segment := UnwrapMediaFrame(tag, mediaKey, frame.value.payload);
          if segment.None? {
            ending := BadMediaFrame;
            break;
          }
          ConcatAssoc(segments, [segment.value],
                      ReadTurns(tag, mediaKey, frame.value.rest, left - 1).segments);
          if segmentHandler {
            ConcatAssoc(old(handed), segments, [segment.value]);
            handed := handed + [segment.value];
          }
          segments := segments + [segment.value];
        }
        rest, left := frame.value.rest, left - 1;
        closed := left == 0;
      }
      assert segments + [] == segments;
      NotifyClosed();
    }

    /** Close the connection; the close handler is fired once over all calls. */
    method AsyncClose()
      modifies this`closed, this`connected, this`closeHandler, this`closeCalls
      ensures closed
      ensures old(closed) ==> connected == old(connected) && closeHandler == old(closeHandler)
                              && closeCalls == old(closeCalls)
      ensures !old(closed) ==>
        && !connected && !closeHandler
        && closeCalls == old(closeCalls) + (if old(closeHandler) then 1 else 0)
    {
      if closed {
        return;
      }
      closed := true;
      connected := false;
      NotifyClosed();
    }

    /** Fire the close handler once. */
    method NotifyClosed()
      modifies this`closeHandler, this`closeCalls
      ensures !closeHandler && closeCalls == old(closeCalls) + (if old(closeHandler) then 1 else 0)
    {
      if closeHandler {
        closeCalls := closeCalls + 1;
      }
      closeHandler := false;
    }

    /** False is the overflow raised for a segment too long for a frame. */
    method WriteSegment(segment: Bytes) returns (ok: bool)
      modifies this`written
      ensures ok == MediaFrame(tag, mediaKey, segment).Some?
      ensures written == old(written)
                         + (if ok && !closed && connected
                            then MediaFrame(tag, mediaKey, segment).value else [])
    {
      var frame := MediaFrame(tag, mediaKey, segment);
      if frame.None? {
        return false;
      }
      if closed || !connected {
        return true;
      }
      written := written + frame.value;
      return true;
    }
  }
}
