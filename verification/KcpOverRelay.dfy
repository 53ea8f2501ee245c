/** A conversation's segments carried as bytes: whatever a conversation ever
    transmits fits a relay frame, and the peer's read loop and parser recover
    it. */
module KcpOverRelay {
  import opened ByteStrings
  import opened KcpSegment
  import opened Kcp
  import opened KcpSender
  import opened KcpSystem
  import opened RelayFraming

  /** A segment the header and a relay frame can carry. */
  predicate Carriable(s: Segment) { Buildable(s) && |s.data| <= MAX_SEGMENT_SIZE }

  predicate AllCarriable(segments: seq<Segment>) {
    forall i :: 0 <= i < |segments| ==> Carriable(segments[i])
  }

  predicate OnlyCarriable(st: State) {
    AllCarriable(st.transmitted) && AllCarriable(Raws(st.pending))
  }

  lemma PushOneCarriable(st: State, message: Bytes, index: nat, clock: Clock)
    requires index < ChunkCount(message) <= 256 && OnlyCarriable(st)
    ensures OnlyCarriable(PushOne(st, message, index, clock))
  {
    var raw := PushOf(st, message, index, Now(clock, 2 * index));
    assert Carriable(raw);
    RawsAppend(st.pending, Pending(st.nextSend, raw, Now(clock, 2 * index + 1), 1));
    hide PushOf, Carriable, Raws;
  }

  lemma {:induction false} PushUpToCarriable(st: State, message: Bytes, n: nat, clock: Clock)
    requires n <= ChunkCount(message) <= 256 && OnlyCarriable(st)
    ensures OnlyCarriable(PushUpTo(st, message, n, clock))
  {
    hide PushUpTo, PushOne, OnlyCarriable;
    PushUpToSteps(st, message, n, clock);
    if n > 0 {
      PushUpToCarriable(st, message, n - 1, clock);
      PushOneCarriable(PushUpTo(st, message, n - 1, clock), message, n - 1, clock);
    }
  }

  lemma {:induction false} SweepUpToCarriable(st: State, n: nat, now: nat)
    requires n <= |st.pending| && OnlyCarriable(st)
    ensures OnlyCarriable(SweepUpTo(st, n, now))
  {
    if n > 0 && !st.closed {
      SweepUpToCarriable(st, n - 1, now);
      var before := SweepUpTo(st, n - 1, now);
      if !before.closed {
        SweepEntryCarriable(before, n - 1, now);
      }
    }
  }

  lemma SweepEntryCarriable(st: State, i: nat, now: nat)
    requires i < |st.pending| && OnlyCarriable(st)
    ensures OnlyCarriable(SweepEntry(st, i, now))
  {
    assert Carriable(Raws(st.pending)[i]);
    hide Carriable;
    if Due(st.pending[i], now) && st.pending[i].transmits < MAX_RETRANSMITS {
      assert Raws(SweepEntry(st, i, now).pending) == Raws(st.pending);
    }
  }

  lemma InputCarriable(st: State, segment: Segment, clock: Clock)
    requires Queued(st) && OnlyCarriable(st) && !st.closed
    ensures OnlyCarriable(Input(st, segment, clock))
  {
    InputMovesBase(st, segment, clock);
    InputReplies(st, segment, clock);
    var after := Input(st, segment, clock);
    var dropped := Base(after) - Base(st);
    assert Raws(after.pending) == Raws(st.pending)[dropped..];
    assert AllCarriable(Replies(st, segment, clock));
  }

  /** Whatever a conversation transmits, in any run, is carriable. */
  lemma {:induction false} RunCarriable(conversation: nat, events: seq<Event>)
    ensures OnlyCarriable(Run(Fresh(conversation), events))
  {
    if events == [] {
      return;
    }
    var n := |events| - 1;
    var before := Run(Fresh(conversation), events[..n]);
    RunCarriable(conversation, events[..n]);
    RunKeepsSender(conversation, events[..n]);
    match events[n]
    case Arrives(segment, clock) =>
      if !before.closed {
        InputCarriable(before, segment, clock);
      }
    case Sends(message, clock) =>
      if SendOutcomeOf(before, message) == Sent {
        PushUpToCarriable(before, message, ChunkCount(message), clock);
      }
    case Sweeps(now) => SweepUpToCarriable(before, |before.pending|, now);
    case Installs(installed) =>
    case Closes =>
  }

  /** The bytes of some segments. */
  function Encoded(segments: seq<Segment>): (raws: seq<Bytes>)
    ensures |raws| == |segments|
  {
    seq(|segments|, i requires 0 <= i < |segments| =>
      if BuildSegment(segments[i]).Some? then BuildSegment(segments[i]).value else [])
  }

  lemma {:induction false} SegmentsFrame(items: seq<Item>, raws: seq<Bytes>, i: nat)
    requires Segments(items) == raws && i < |items| && items[i].Media?
    ensures items[i].segment in raws
  {
    if i > 0 {
      SegmentsFrame(items[1..], Segments(items[1..]), i - 1);
    }
  }

  predicate OthersFramable(items: seq<Item>) {
    forall i :: 0 <= i < |items| && items[i].Other? ==> Framable(items[i])
  }

  predicate AllFramable(items: seq<Item>) {
    forall i :: 0 <= i < |items| ==> Framable(items[i])
  }

  /** What was read parses to what was sent, as the wire carries it. */
  predicate ParsesTo(read: seq<Bytes>, sent: seq<Segment>) {
    && |read| == |sent|
    && forall i :: 0 <= i < |read| ==> ParseSegment(read[i]) == Some(OnWire(sent[i]))
  }

  lemma CarriableParses(s: Segment)
    requires Carriable(s)
    ensures BuildSegment(s).Some? && ParseSegment(BuildSegment(s).value) == Some(OnWire(s))
    ensures |BuildSegment(s).value| == KCP_HEADER_LENGTH + |s.data|
  {
    ParseBuild(s, []);
    assert BuildSegment(s).value + [] == BuildSegment(s).value;
  }

  lemma EncodedParses(segments: seq<Segment>)
    requires AllCarriable(segments)
    ensures ParsesTo(Encoded(segments), segments)
    ensures forall k :: 0 <= k < |segments| ==> Framable(Media(Encoded(segments)[k]))
  {
    hide ParseSegment, OnWire, BuildSegment;
    forall k | 0 <= k < |segments|
      ensures ParseSegment(Encoded(segments)[k]) == Some(OnWire(segments[k]))
      ensures Framable(Media(Encoded(segments)[k]))
    {
      assert Carriable(segments[k]);
      CarriableParses(segments[k]);
    }
  }

  lemma EncodedItemsFrame(segments: seq<Segment>, items: seq<Item>)
    requires AllCarriable(segments) && Segments(items) == Encoded(segments)
    requires OthersFramable(items)
    ensures AllFramable(items)
  {
    EncodedParses(segments);
    hide AllCarriable, Encoded, Segments;
    var raws := Encoded(segments);
    forall i | 0 <= i < |items|
      ensures Framable(items[i])
    {
      if items[i].Media? {
        SegmentsFrame(items, raws, i);
        var k :| 0 <= k < |raws| && raws[k] == items[i].segment;
        assert Framable(Media(raws[k]));
      }
    }
  }

  /** Segments that can be carried, framed, tagged and interleaved with keepalives
      and other frames, are read off the stream and parsed back, in order. */
  lemma SegmentsArrive(segments: seq<Segment>, tag: Tagger, key: Bytes, items: seq<Item>)
    requires IsTagger(tag) && AllCarriable(segments)
    requires Segments(items) == Encoded(segments) && OthersFramable(items)
    ensures AllFramable(items)
    ensures ParsesTo(ReadAll(tag, key, Written(tag, key, items)).segments, segments)
  {
    EncodedItemsFrame(segments, items);
    EncodedParses(segments);
    hide AllCarriable, Encoded, Segments, ParsesTo, ReadAll, IsTagger;
    ReadBackWritten(tag, key, items, []);
    assert Written(tag, key, items) + [] == Written(tag, key, items);
  }

  /** Byte for byte: everything a conversation transmits in any run, framed,
      tagged and interleaved with keepalives and other frames, is read off the
      stream and parsed back by the peer to exactly the segments as the wire
      carries them, in order. */
  lemma TransmissionsArrive(conversation: nat, events: seq<Event>, tag: Tagger, key: Bytes,
                            items: seq<Item>)
    requires IsTagger(tag) && OthersFramable(items)
    requires Segments(items) == Encoded(Run(Fresh(conversation), events).transmitted)
    ensures AllFramable(items)
    ensures AllCarriable(Run(Fresh(conversation), events).transmitted)
    ensures ParsesTo(ReadAll(tag, key, Written(tag, key, items)).segments,
                     Run(Fresh(conversation), events).transmitted)
  {
    RunCarriable(conversation, events);
    hide Run, ParsesTo, ReadAll, IsTagger, Segments;
    SegmentsArrive(Run(Fresh(conversation), events).transmitted, tag, key, items);
  }
}
