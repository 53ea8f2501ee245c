/** The whole way of the video: from the messages a device sends on its video
    conversation, over the framed byte stream and the routing, to the frames a
    session publishes. */
module VideoDelivery {
  import opened ByteStrings
  import opened KcpSegment
  import opened Kcp
  import opened KcpSender
  import opened KcpRetransmit
  import opened KcpReceiver
  import opened KcpHandler
  import opened KcpSystem
  import opened KcpOneWay
  import opened KcpOverRelay
  import opened RelayRouting
  import opened Crypto
  import opened Jpeg
  import RelayFraming
  import StreamSession

  // --------------------------------------------------------- routing

  /** The raw segments of one conversation among those of all. */
  function Among(raws: seq<Bytes>, id: nat): seq<Bytes> {
    if raws == [] then []
    else
      var last := raws[|raws| - 1];
      Among(raws[..|raws| - 1], id) + (if IsFor(Arrival(last, ANY_CLOCK), id) then [last] else [])
  }

  const ANY_CLOCK: Clock := (reading: nat) => 0

  function RawsOf(arrivals: seq<Arrival>): (raws: seq<Bytes>)
    ensures |raws| == |arrivals|
  {
    seq(|arrivals|, i requires 0 <= i < |arrivals| => arrivals[i].raw)
  }

  /** The events of a conversation are its segments, one after the other. */
  predicate Heard(events: seq<Event>, raws: seq<Bytes>) {
    && |events| == |raws|
    && forall i :: 0 <= i < |events| ==>
         events[i].Arrives? && ParseSegment(raws[i]) == Some(events[i].segment)
  }

  lemma {:induction false} EventsAreHeard(arrivals: seq<Arrival>, id: nat)
    ensures Heard(EventsFor(arrivals, id), Among(RawsOf(arrivals), id))
  {
    if arrivals != [] {
      var n := |arrivals| - 1;
      assert RawsOf(arrivals)[..n] == RawsOf(arrivals[..n]);
      hide ParseSegment;
      EventsAreHeard(arrivals[..n], id);
    }
  }

  lemma {:induction false} EventsConcat(a: seq<Arrival>, b: seq<Arrival>, id: nat)
    ensures EventsFor(a + b, id) == EventsFor(a, id) + EventsFor(b, id)
  {
    if b == [] {
      assert a + b == a;
    } else {
      var n := |b| - 1;
      assert (a + b)[..|a + b| - 1] == a + b[..n];
      hide IsFor, ParseSegment;
      EventsConcat(a, b[..n], id);
    }
  }

  lemma {:induction false} RunConcat(st: State, a: seq<Event>, b: seq<Event>)
    ensures Run(st, a + b) == Run(Run(st, a), b)
  {
    if b == [] {
      assert a + b == a;
    } else {
      var n := |b| - 1;
      assert (a + b)[..|a + b| - 1] == a + b[..n];
      hide Step;
      RunConcat(st, a, b[..n]);
    }
  }

  predicate OnlyArrivals(events: seq<Event>) {
    forall i :: 0 <= i < |events| ==> events[i].Arrives?
  }

  lemma {:induction false} NobodyListened(conversation: nat, events: seq<Event>)
    requires OnlyArrivals(events)
    ensures Run(Fresh(conversation), events).handed == []
    ensures !Run(Fresh(conversation), events).handler
  {
    if events != [] {
      var n := |events| - 1;
      NobodyListened(conversation, events[..n]);
      var before := Run(Fresh(conversation), events[..n]);
      StepHands(before, events[n]);
      InputKeepsHandler(before, events[n].segment, events[n].clock);
      hide Step;
    }
  }

  lemma InputKeepsHandler(st: State, segment: Segment, clock: Clock)
    ensures Input(st, segment, clock).handler == st.handler
  {
    if !st.closed {
      InputReceives(st, segment, clock);
      AcceptKeepsSender(st, segment);
    }
  }

  /** A reader that is given its handler on the way: what it completes is what it
      would have completed with none, and what it hands over are the non-empty
      messages completed after that. */
  lemma InstalledOnTheWay(conversation: nat, before: seq<Event>,
                          after: seq<Event>)
    requires OnlyArrivals(before) && OnlyArrivals(after)
    ensures var start := Run(Fresh(conversation), before);
            var end := Run(SetHandler(start, true), after);
            && end.completed == Run(Fresh(conversation), before + after).completed
            && start.completed <= end.completed
            && end.handed == NonEmpty(end.completed[|start.completed|..])
  {
    var start := Run(Fresh(conversation), before);
    NobodyListened(conversation, before);
    hide Run, Step;
    RunHandsFromInstall(SetHandler(start, true), after);
    RunConcat(Fresh(conversation), before, after);
    RunDeaf(start, after);
    RunDeaf(SetHandler(start, true), after);
    assert Deaf(start) == Deaf(SetHandler(start, true));
  }

  // ---------------------------------------------------------- records

  lemma NothingPublished(st: StreamSession.Session, cbc: Cbc, key: Bytes)
    ensures StreamSession.OnRecord(st, cbc, key, []) == st
  {
    StreamSession.ParsedNothing();
    assert StreamSession.RecordPackets(cbc, key, []) == [];
    assert st.published + [] == st.published;
  }

  lemma {:induction false} EmptyRecordsDoNothing(st: StreamSession.Session, cbc: Cbc, key: Bytes,
                                                 records: seq<Bytes>)
    ensures StreamSession.OnRecords(st, cbc, key, NonEmpty(records))
            == StreamSession.OnRecords(st, cbc, key, records)
  {
    if records != [] {
      var n := |records| - 1;
      var last := records[n];
      hide StreamSession.OnRecord;
      EmptyRecordsDoNothing(st, cbc, key, records[..n]);
      if last == [] {
        NothingPublished(StreamSession.OnRecords(st, cbc, key, records[..n]), cbc, key);
        assert NonEmpty(records) == NonEmpty(records[..n]);
      } else {
        assert NonEmpty(records)[..|NonEmpty(records)| - 1] == NonEmpty(records[..n]);
      }
    }
  }

  /** More records only add to what is published. */
  lemma {:induction false} MoreRecords(st: StreamSession.Session, cbc: Cbc, key: Bytes,
                                       some: seq<Bytes>, all: seq<Bytes>)
    requires some <= all
    ensures StreamSession.OnRecords(st, cbc, key, some).published
            <= StreamSession.OnRecords(st, cbc, key, all).published
  {
    if some == all {
      return;
    }
    var n := |all| - 1;
    hide StreamSession.RecordPackets, StreamSession.Parsed, Jpeg.Published, PutAll;
    MoreRecords(st, cbc, key, some, all[..n]);
  }

  // ------------------------------------------------------------- all of it

  /** What the client makes of the stream: it routes what it reads, somebody takes
      the video conversation and installs a handler, and it routes on. */
  function VideoOf(m: Conversations, before: seq<Arrival>, after: seq<Arrival>): State {
    var found := RouteAll(m, before);
    var taken := found[VIDEO_CONVERSATION := SetHandler(StateOf(found, VIDEO_CONVERSATION), true)];
    StateOf(RouteAll(taken, after), VIDEO_CONVERSATION)
  }

  lemma VideoIsRun(m: Conversations, before: seq<Arrival>,
                   after: seq<Arrival>)
    requires VIDEO_CONVERSATION !in m
    ensures VideoOf(m, before, after)
            == Run(SetHandler(Run(Fresh(VIDEO_CONVERSATION),
                                  EventsFor(before, VIDEO_CONVERSATION)), true),
                   EventsFor(after, VIDEO_CONVERSATION))
  {
    hide RouteAll, Run, EventsFor;
    NonInterference(m, before, VIDEO_CONVERSATION);
    var found := RouteAll(m, before);
    var taken := found[VIDEO_CONVERSATION := SetHandler(StateOf(found, VIDEO_CONVERSATION), true)];
    NonInterference(taken, after, VIDEO_CONVERSATION);
  }

  lemma {:induction false} OnlyArrivalsFor(arrivals: seq<Arrival>, id: nat)
    ensures OnlyArrivals(EventsFor(arrivals, id))
  {
    if arrivals != [] {
      hide IsFor, ParseSegment;
      OnlyArrivalsFor(arrivals[..|arrivals| - 1], id);
    }
  }

  lemma {:induction false} AmongPrefix(some: seq<Bytes>, all: seq<Bytes>, id: nat)
    requires some <= all
    ensures Among(some, id) <= Among(all, id)
  {
    hide IsFor, ParseSegment;
    if some != all {
      AmongPrefix(some, all[..|all| - 1], id);
    }
  }

  /** Of a device's run of the video conversation the client has read some segments so
      far, in between those of other conversations, or all of them. */
  predicate HasRead(sends: seq<Event>, arrivals: seq<Arrival>) {
    var device := Run(Fresh(VIDEO_CONVERSATION), sends);
    && device.nextSend < TWO_32
    && Among(RawsOf(arrivals), VIDEO_CONVERSATION) <= Encoded(device.transmitted)
  }

  predicate HasReadAll(sends: seq<Event>, arrivals: seq<Arrival>) {
    Among(RawsOf(arrivals), VIDEO_CONVERSATION)
    == Encoded(Run(Fresh(VIDEO_CONVERSATION), sends).transmitted)
  }

  /** The messages completed before the video conversation was given its handler. */
  function Missed(m: Conversations, before: seq<Arrival>): seq<Bytes> {
    StateOf(RouteAll(m, before), VIDEO_CONVERSATION).completed
  }

  lemma ReadIsPrefix(sends: seq<Event>, arrivals: seq<Arrival>)
    requires HasRead(sends, arrivals)
    ensures var events := EventsFor(arrivals, VIDEO_CONVERSATION);
            var link := Wired(Run(Fresh(VIDEO_CONVERSATION), sends).transmitted);
            && |events| <= |link| && Reads(events, link[..|events|])
            && (HasReadAll(sends, arrivals) ==> |events| == |link|)
  {
    var device := Run(Fresh(VIDEO_CONVERSATION), sends);
    var events := EventsFor(arrivals, VIDEO_CONVERSATION);
    RunCarriable(VIDEO_CONVERSATION, sends);
    EncodedParses(device.transmitted);
    EventsAreHeard(arrivals, VIDEO_CONVERSATION);
    hide Run, EventsFor, ParseSegment, OnWire, Encoded;
    var raws := Among(RawsOf(arrivals), VIDEO_CONVERSATION);
    forall i | 0 <= i < |events|
      ensures events[i].Arrives? && events[i].segment == Wired(device.transmitted)[i]
    {
      assert raws[i] == Encoded(device.transmitted)[i];
    }
  }

  /** At any moment the client's end of the video conversation has completed a prefix
      of the messages the device sent on it, and its handler was given the non-empty
      ones after those completed before it was there; all of them once everything
      was read. */
  lemma VideoMessagesArrive(sends: seq<Event>, m: Conversations, before: seq<Arrival>,
                            after: seq<Arrival>)
    requires HasRead(sends, before + after) && VIDEO_CONVERSATION !in m
    ensures var sent := SentIn(Fresh(VIDEO_CONVERSATION), sends);
            var missed, end := Missed(m, before), VideoOf(m, before, after);
            && missed <= end.completed <= sent
            && end.handed == NonEmpty(end.completed[|missed|..])
            && (HasReadAll(sends, before + after) ==> end.completed == sent)
  {
    var id := VIDEO_CONVERSATION;
    var first, second := EventsFor(before, id), EventsFor(after, id);
    ReadIsPrefix(sends, before + after);
    EventsConcat(before, after, id);
    OnlyArrivalsFor(before, id);
    OnlyArrivalsFor(after, id);
    hide Run, EventsFor, RouteAll, SentIn, Wired, Reads, VideoOf, HasReadAll;
    ReaderCompletes(id, sends, id, first + second);
    InstalledOnTheWay(id, first, second);
    NonInterference(m, before, id);
    VideoIsRun(m, before, after);
  }

  /** What a session makes of the messages handed over. */
  function SessionOf(cbc: Cbc, key: Bytes, messages: seq<Bytes>): StreamSession.Session {
    StreamSession.OnRecords(StreamSession.FreshSession(), cbc, key, messages)
  }

  /** A session publishes what it would of the messages the device sent after those
      missed: so far a part of it, and in the end the same. */
  lemma VideoReachesSession(sends: seq<Event>, m: Conversations, before: seq<Arrival>,
                            after: seq<Arrival>, cbc: Cbc, key: Bytes)
    requires HasRead(sends, before + after) && VIDEO_CONVERSATION !in m
    ensures var sent := SentIn(Fresh(VIDEO_CONVERSATION), sends);
            var missed := |Missed(m, before)|;
            var end := SessionOf(cbc, key, VideoOf(m, before, after).handed);
            && missed <= |sent|
            && end.published <= SessionOf(cbc, key, sent[missed..]).published
            && (HasReadAll(sends, before + after) ==> end == SessionOf(cbc, key, sent[missed..]))
  {
    VideoMessagesArrive(sends, m, before, after);
    hide HasRead, HasReadAll, VideoOf, Missed, SentIn, StreamSession.OnRecords, NonEmpty;
    var sent, missed := SentIn(Fresh(VIDEO_CONVERSATION), sends), |Missed(m, before)|;
    var heard := VideoOf(m, before, after).completed[missed..];
    EmptyRecordsDoNothing(StreamSession.FreshSession(), cbc, key, heard);
    assert heard <= sent[missed..];
    MoreRecords(StreamSession.FreshSession(), cbc, key, heard, sent[missed..]);
  }

  /** What the client has read off a stream: some of the segments on it, or all. The
      stream carries those of the device's video conversation tagged and framed among
      those of other conversations, keepalives and other frames, and ends anywhere. */
  ghost predicate CarriesVideo(frames: seq<RelayFraming.Item>, sends: seq<Event>) {
    && AllFramable(frames)
    && Run(Fresh(VIDEO_CONVERSATION), sends).nextSend < TWO_32
    && Among(RelayFraming.Segments(frames), VIDEO_CONVERSATION)
       == Encoded(Run(Fresh(VIDEO_CONVERSATION), sends).transmitted)
  }

  function SegmentsOn(tag: RelayFraming.Tagger, mediaKey: Bytes, frames: seq<RelayFraming.Item>,
                      tail: Bytes): seq<Bytes>
    requires RelayFraming.IsTagger(tag) && AllFramable(frames)
  {
    RelayFraming.ReadAll(tag, mediaKey,
                         RelayFraming.Written(tag, mediaKey, frames) + tail).segments
  }

  lemma StreamIsRead(sends: seq<Event>, tag: RelayFraming.Tagger, mediaKey: Bytes,
                     frames: seq<RelayFraming.Item>, tail: Bytes, arrivals: seq<Arrival>)
    requires RelayFraming.IsTagger(tag) && CarriesVideo(frames, sends)
    requires RelayFraming.ReadFrame(tail).None?
    requires RawsOf(arrivals) <= SegmentsOn(tag, mediaKey, frames, tail)
    ensures HasRead(sends, arrivals)
    ensures RawsOf(arrivals) == SegmentsOn(tag, mediaKey, frames, tail) ==>
              HasReadAll(sends, arrivals)
  {
    RelayFraming.ReadBackWritten(tag, mediaKey, frames, tail);
    hide Run, Encoded, Among, RelayFraming.Written, RelayFraming.ReadAll, RelayFraming.ReadFrame;
    AmongPrefix(RawsOf(arrivals), RelayFraming.Segments(frames), VIDEO_CONVERSATION);
  }

  /** Byte for byte, from the device's `send` to the published frames. The device
      sends messages on its video conversation in any run, answered and sweeping as
      it may; the client reads its stream, routes every segment, and gives the video
      conversation its handler on the way. If the messages after those already
      completed are records of images, after packets that begin no frame, then at
      any moment what was published is a prefix of these images but the last, and
      once the stream was read it is all but the last, in order, and counted. */
  lemma VideoIsPublished(sends: seq<Event>, early: seq<Bytes>, tag: RelayFraming.Tagger,
                         mediaKey: Bytes, frames: seq<RelayFraming.Item>, tail: Bytes,
                         m: Conversations, before: seq<Arrival>, after: seq<Arrival>, cbc: Cbc,
                         answerKey: Bytes, orphans: seq<Bytes>, images: seq<Bytes>,
                         cuts: seq<seq<Piece>>, items: seq<StreamSession.Item>)
    requires RelayFraming.IsTagger(tag) && CarriesVideo(frames, sends)
    requires RelayFraming.ReadFrame(tail).None?
    requires RawsOf(before + after) <= SegmentsOn(tag, mediaKey, frames, tail)
    requires VIDEO_CONVERSATION !in m && |Missed(m, before)| == |early|
    requires SentIn(Fresh(VIDEO_CONVERSATION), sends)
             == early + StreamSession.RecordsOf(cbc, answerKey, items)
    requires StreamSession.ImagesIn(cbc, answerKey, orphans, images, cuts, items)
    ensures var end := SessionOf(cbc, answerKey, VideoOf(m, before, after).handed);
            && end.published <= AllButLast(images)
            && (RawsOf(before + after) == SegmentsOn(tag, mediaKey, frames, tail) ==>
                  StreamSession.PublishedAllOf(end, images))
  {
    StreamIsRead(sends, tag, mediaKey, frames, tail, before + after);
    hide HasRead, HasReadAll, Missed, SentIn, VideoOf, SegmentsOn, CarriesVideo;
    hide StreamSession.ImagesIn;
    VideoReachesSession(sends, m, before, after, cbc, answerKey);
    var records := StreamSession.RecordsOf(cbc, answerKey, items);
    assert (early + records)[|early|..] == records;
    StreamSession.ImagesArePublished(cbc, answerKey, orphans, images, cuts, items);
  }

  /** The same for a device that sends nothing but records of images from the start,
      whenever the handler is installed: lost are exactly the images whose first
      packet was in a message missed, the one cut in two included. */
  lemma VideoFromAnyMoment(sends: seq<Event>, tag: RelayFraming.Tagger, mediaKey: Bytes,
                           frames: seq<RelayFraming.Item>, tail: Bytes, m: Conversations,
                           before: seq<Arrival>, after: seq<Arrival>, cbc: Cbc, answerKey: Bytes,
                           images: seq<Bytes>, cuts: seq<seq<Piece>>,
                           items: seq<StreamSession.Item>)
    requires RelayFraming.IsTagger(tag) && CarriesVideo(frames, sends)
    requires RelayFraming.ReadFrame(tail).None?
    requires RawsOf(before + after) <= SegmentsOn(tag, mediaKey, frames, tail)
    requires VIDEO_CONVERSATION !in m
    requires SentIn(Fresh(VIDEO_CONVERSATION), sends)
             == StreamSession.RecordsOf(cbc, answerKey, items)
    requires StreamSession.ImagesIn(cbc, answerKey, [], images, cuts, items)
    ensures var missed := |Missed(m, before)|;
            && missed <= |items|
            && LostAndPublished(SessionOf(cbc, answerKey, VideoOf(m, before, after).handed), images,
                                StreamSession.FrameStarts(
                                  StreamSession.AllPackets(items[..missed])),
                                RawsOf(before + after) == SegmentsOn(tag, mediaKey, frames, tail))
  {
    StreamIsRead(sends, tag, mediaKey, frames, tail, before + after);
    hide HasRead, HasReadAll, Missed, SentIn, VideoOf, SegmentsOn, CarriesVideo;
    hide StreamSession.ImagesIn;
    hide StreamSession.OnRecords, StreamSession.FrameStarts, StreamSession.AllPackets;
    VideoReachesSession(sends, m, before, after, cbc, answerKey);
    var missed := |Missed(m, before)|;
    RecordsAfter(cbc, answerKey, items, missed);
    StreamSession.LateImagesArePublished(cbc, answerKey, images, cuts, items, missed);
  }

  lemma RecordsAfter(cbc: Cbc, key: Bytes, items: seq<StreamSession.Item>, k: nat)
    requires k <= |items|
    ensures StreamSession.RecordsOf(cbc, key, items)[k..]
            == StreamSession.RecordsOf(cbc, key, items[k..])
  {
    hide StreamSession.RecordOf;
  }

  /** The first so many images are lost; of the others a prefix is published so far,
      and all but the last when everything was read. */
  predicate LostAndPublished(end: StreamSession.Session, images: seq<Bytes>, lost: nat,
                             everything: bool) {
    && lost <= |images|
    && end.published <= AllButLast(images[lost..])
    && (everything ==> StreamSession.PublishedAllOf(end, images[lost..]))
  }
}
