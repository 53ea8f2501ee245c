/** The framing of the relay's byte stream: length-framed messages, tagged media
    frames, and the loop that reads them. */
module RelayFraming {
  import opened ByteStrings

  const FRAME_HANDSHAKE: byte := 0xF4
  const FRAME_MEDIA: byte := 0xF6
  const MEDIA_TAG_LENGTH: nat := 20
  const FRAME_HEADER_LENGTH: nat := 4
  const TLV_HEADER_LENGTH: nat := 4

  /** HMAC-SHA1 stays abstract: any function of the key and the segment with
      twenty bytes of output. */
  type Tagger = (Bytes, Bytes) -> Bytes

  ghost predicate IsTagger(tag: Tagger) {
    forall key, segment: Bytes {:trigger tag(key, segment)} ::
      |tag(key, segment)| == MEDIA_TAG_LENGTH
  }

  // --------------------------------------------------------- builders

  /** None is the overflow Python raises for a length above two bytes. */
  function RelayFrame(magic: byte, body: Bytes): Option<Bytes> {
    if |body| >= TWO_16 then None else Some([magic, 0x00] + Big(|body|, 2) + body)
  }

  function MediaInner(tag: Tagger, key: Bytes, segment: Bytes): Bytes {
    [0x00, 0x07] + Big(|segment| + MEDIA_TAG_LENGTH, 2) + (segment + tag(key, segment))
  }

  function MediaFrame(tag: Tagger, key: Bytes, segment: Bytes): Option<Bytes> {
    if |segment| + MEDIA_TAG_LENGTH >= TWO_16 then None
    else RelayFrame(FRAME_MEDIA, MediaInner(tag, key, segment))
  }

  /** None is the protocol error. */
  function UnwrapMediaFrame(tag: Tagger, key: Bytes, payload: Bytes): Option<Bytes> {
    if |payload| < TLV_HEADER_LENGTH + MEDIA_TAG_LENGTH then None
    else
      var inner := FromBig(payload[2..4]);
      if inner < MEDIA_TAG_LENGTH || TLV_HEADER_LENGTH + inner > |payload| then None
      else
        var end := TLV_HEADER_LENGTH + inner;
        var segment := payload[TLV_HEADER_LENGTH..end - MEDIA_TAG_LENGTH];
        if payload[end - MEDIA_TAG_LENGTH..end] != tag(key, segment) then None else Some(segment)
  }

  // ----------------------------------------------------------- reader

  datatype Raw = Raw(magic: byte, payload: Bytes, rest: Bytes)

  /** One whole frame off the stream; None when the stream ends inside it. */
  function ReadFrame(stream: Bytes): (r: Option<Raw>)
    ensures r.Some? ==> |r.value.rest| < |stream|
  {
    if |stream| < FRAME_HEADER_LENGTH then None
    else
      var length := FromBig(stream[2..4]);
      if FRAME_HEADER_LENGTH + length > |stream| then None
      else Some(Raw(stream[0], stream[FRAME_HEADER_LENGTH..FRAME_HEADER_LENGTH + length],
                    stream[FRAME_HEADER_LENGTH + length..]))
  }

  /** Why the read loop stops: it is stopped when it finds the connection closed
      before it reads the next frame. */
  datatype Ending = StreamEnded | BadMediaFrame | Stopped

  datatype Reading = Reading(segments: seq<Bytes>, ending: Ending)

  function Prepend(segment: Bytes, r: Reading): Reading {
    Reading([segment] + r.segments, r.ending)
  }

  /** What the read loop hands over, and why it stops. */
  function ReadAll(tag: Tagger, key: Bytes, stream: Bytes): Reading
    decreases |stream|
  {
    match ReadFrame(stream)
    case None => Reading([], StreamEnded)
    case Some(frame) =>
      if frame.magic != FRAME_MEDIA then ReadAll(tag, key, frame.rest)
      else
        match UnwrapMediaFrame(tag, key, frame.payload)
        case None => Reading([], BadMediaFrame)
        case Some(segment) => Prepend(segment, ReadAll(tag, key, frame.rest))
  }

  /** The same when the connection is closed once `turns` frames were read. */
  function ReadTurns(tag: Tagger, key: Bytes, stream: Bytes, turns: nat): Reading
    decreases |stream|
  {
    if turns == 0 then Reading([], Stopped)
    else
      match ReadFrame(stream)
      case None => Reading([], StreamEnded)
      case Some(frame) =>
        if frame.magic != FRAME_MEDIA then ReadTurns(tag, key, frame.rest, turns - 1)
        else
          match UnwrapMediaFrame(tag, key, frame.payload)
          case None => Reading([], BadMediaFrame)
          case Some(segment) => Prepend(segment, ReadTurns(tag, key, frame.rest, turns - 1))
  }

  /** Closed early, the loop hands over a prefix of what it would have; it was not
      closed early if it did not stop for that. */
  lemma {:induction false} StoppedIsPrefix(tag: Tagger, key: Bytes, stream: Bytes, turns: nat)
    ensures ReadTurns(tag, key, stream, turns).segments <= ReadAll(tag, key, stream).segments
    ensures ReadTurns(tag, key, stream, turns).ending != Stopped ==>
              ReadTurns(tag, key, stream, turns) == ReadAll(tag, key, stream)
    ensures turns > |stream| ==> ReadTurns(tag, key, stream, turns).ending != Stopped
    decreases |stream|
  {
    hide UnwrapMediaFrame;
    var frame := ReadFrame(stream);
    if turns > 0 && frame.Some? {
      StoppedIsPrefix(tag, key, frame.value.rest, turns - 1);
    }
  }

  // -------------------------------------------------------- round trips

  lemma FromBigTwo(v: nat)
    requires v < TWO_16
    ensures FromBig(Big(v, 2)) == v
  {
    PowersOf256();
    BigRoundTrip(v, 2);
  }

  /** A two-byte tag and a two-byte length in front of a body. */
  lemma Framed(a: byte, b: byte, body: Bytes, rest: Bytes)
    requires |body| < TWO_16
    ensures var s := [a, b] + Big(|body|, 2) + body + rest;
            && |s| == 4 + |body| + |rest| && s[0] == a && s[1] == b
            && FromBig(s[2..4]) == |body|
            && s[4..4 + |body|] == body && s[4 + |body|..] == rest
  {
    FromBigTwo(|body|);
    FramedParts(a, b, Big(|body|, 2), body, rest);
  }

  lemma FramedParts(a: byte, b: byte, length: Bytes, body: Bytes, rest: Bytes)
    requires |length| == 2
    ensures var s := [a, b] + length + body + rest;
            && |s| == 4 + |body| + |rest| && s[0] == a && s[1] == b && s[2..4] == length
            && s[4..4 + |body|] == body && s[4 + |body|..] == rest
  {
  }

  lemma ReadRelayFrame(magic: byte, body: Bytes, rest: Bytes)
    requires |body| < TWO_16
    ensures RelayFrame(magic, body).Some?
    ensures ReadFrame(RelayFrame(magic, body).value + rest) == Some(Raw(magic, body, rest))
  {
    hide Big, FromBig;
    Framed(magic, 0x00, body, rest);
  }

  /** Unwrapping undoes wrapping. */
  lemma UnwrapMedia(tag: Tagger, key: Bytes, segment: Bytes)
    requires IsTagger(tag) && |segment| + MEDIA_TAG_LENGTH < TWO_16
    ensures UnwrapMediaFrame(tag, key, MediaInner(tag, key, segment)) == Some(segment)
  {
    var t := tag(key, segment);
    var body := segment + t;
    hide Big, FromBig;
    Framed(0x00, 0x07, body, []);
    var inner := MediaInner(tag, key, segment);
    assert inner + [] == inner;
    assert inner[4..4 + |segment|] == body[..|segment|] == segment;
    assert inner[4 + |segment|..4 + |body|] == body[|segment|..] == t;
  }

  /** What one side writes: tagged segments, and frames of any other kind. */
  datatype Item = Media(segment: Bytes) | Other(magic: byte, body: Bytes)

  /** The frame of an item can be built. */
  predicate Framable(item: Item) {
    match item
    case Media(segment) => TLV_HEADER_LENGTH + |segment| + MEDIA_TAG_LENGTH < TWO_16
    case Other(magic, body) => magic != FRAME_MEDIA && |body| < TWO_16
  }

  function FrameOf(tag: Tagger, key: Bytes, item: Item): Option<Bytes> {
    match item
    case Media(segment) => MediaFrame(tag, key, segment)
    case Other(magic, body) => RelayFrame(magic, body)
  }

  /** A segment's frame can be built exactly when both length fields hold. */
  lemma MediaFrameFits(tag: Tagger, key: Bytes, segment: Bytes)
    requires IsTagger(tag)
    ensures MediaFrame(tag, key, segment).Some? <==> Framable(Media(segment))
  {
    hide Big;
    assert |tag(key, segment)| == MEDIA_TAG_LENGTH;
  }

  function Written(tag: Tagger, key: Bytes, items: seq<Item>): Bytes
    requires IsTagger(tag)
    requires forall i :: 0 <= i < |items| ==> Framable(items[i])
  {
    if items == [] then []
    else
      FramesBuild(tag, key, items[0]);
      FrameOf(tag, key, items[0]).value + Written(tag, key, items[1..])
  }

  function Segments(items: seq<Item>): seq<Bytes> {
    if items == [] then []
    else (if items[0].Media? then [items[0].segment] else []) + Segments(items[1..])
  }

  lemma FramesBuild(tag: Tagger, key: Bytes, item: Item)
    requires IsTagger(tag) && Framable(item)
    ensures FrameOf(tag, key, item).Some?
  {
    if item.Media? {
      MediaFrameFits(tag, key, item.segment);
    }
  }

  lemma ReadItem(tag: Tagger, key: Bytes, item: Item, rest: Bytes)
    requires IsTagger(tag) && Framable(item)
    ensures FrameOf(tag, key, item).Some?
    ensures ReadAll(tag, key, FrameOf(tag, key, item).value + rest)
            == if item.Media? then Prepend(item.segment, ReadAll(tag, key, rest))
               else ReadAll(tag, key, rest)
  {
    FramesBuild(tag, key, item);
    hide Big, FromBig, ReadFrame, UnwrapMediaFrame;
    match item
    case Media(segment) =>
      assert |tag(key, segment)| == MEDIA_TAG_LENGTH;
      ReadRelayFrame(FRAME_MEDIA, MediaInner(tag, key, segment), rest);
      UnwrapMedia(tag, key, segment);
    case Other(magic, body) =>
      ReadRelayFrame(magic, body, rest);
  }

  /** For any interleaving of media frames with keepalives and other frames,
      ended anywhere inside a further frame or at a frame's end, the read loop
      hands over exactly the segments written, in order. */
  lemma {:induction false} ReadBackWritten(tag: Tagger, key: Bytes, items: seq<Item>, tail: Bytes)
    requires IsTagger(tag) && ReadFrame(tail).None?
    requires forall i :: 0 <= i < |items| ==> Framable(items[i])
    ensures ReadAll(tag, key, Written(tag, key, items) + tail)
            == Reading(Segments(items), StreamEnded)
  {
    if items == [] {
      assert [] + tail == tail;
      return;
    }
    hide IsTagger, Framable, ReadFrame, UnwrapMediaFrame, FrameOf;
    ReadBackWritten(tag, key, items[1..], tail);
    ReadItem(tag, key, items[0], Written(tag, key, items[1..]) + tail);
    ConcatAssoc(FrameOf(tag, key, items[0]).value, Written(tag, key, items[1..]), tail);
  }

  // ----------------------------------------- on any stream whatever

  /** A frame read whole is still read whole when more follows. */
  lemma ReadFrameGrows(stream: Bytes, more: Bytes)
    requires ReadFrame(stream).Some?
    ensures ReadFrame(stream + more)
            == Some(ReadFrame(stream).value.(rest := ReadFrame(stream).value.rest + more))
  {
    assert (stream + more)[2..4] == stream[2..4];
    hide FromBig;
    var length := FromBig(stream[2..4]);
    assert (stream + more)[4..4 + length] == stream[4..4 + length];
    assert (stream + more)[4 + length..] == stream[4 + length..] + more;
  }

  /** However the bytes arrive, what was handed over stays handed over: the
      segments of a stream are a prefix of those of any longer one. */
  lemma {:induction false} ReadAllGrows(tag: Tagger, key: Bytes, stream: Bytes, more: Bytes)
    ensures ReadAll(tag, key, stream).segments <= ReadAll(tag, key, stream + more).segments
    decreases |stream|
  {
    if ReadFrame(stream).Some? {
      ReadFrameGrows(stream, more);
      hide ReadFrame, UnwrapMediaFrame;
      ReadAllGrows(tag, key, ReadFrame(stream).value.rest, more);
    }
  }

  lemma UnwrappedWasTagged(tag: Tagger, key: Bytes, payload: Bytes)
    requires UnwrapMediaFrame(tag, key, payload).Some?
    ensures var segment := UnwrapMediaFrame(tag, key, payload).value;
            TaggedAt(tag, key, payload, segment, TLV_HEADER_LENGTH)
  {
    hide FromBig;
  }

  predicate TaggedAt(tag: Tagger, key: Bytes, stream: Bytes, segment: Bytes, p: nat) {
    && p + |segment| + MEDIA_TAG_LENGTH <= |stream|
    && stream[p..p + |segment|] == segment
    && stream[p + |segment|..p + |segment| + MEDIA_TAG_LENGTH] == tag(key, segment)
  }

  /** A segment followed by its own tag lies in the stream. */
  ghost predicate TaggedIn(tag: Tagger, key: Bytes, stream: Bytes, segment: Bytes) {
    exists p: nat :: TaggedAt(tag, key, stream, segment, p)
  }

  /** On every stream whatever, each segment handed over was followed there by
      its own tag under the media key. */
  lemma {:induction false} HandedWereTagged(tag: Tagger, key: Bytes, stream: Bytes, i: nat)
    requires i < |ReadAll(tag, key, stream).segments|
    ensures TaggedIn(tag, key, stream, ReadAll(tag, key, stream).segments[i])
    decreases |stream|
  {
    var frame := ReadFrame(stream).value;
    var at := |stream| - |frame.rest|;
    assert frame.rest == stream[at..] && frame.payload == stream[4..at] by {
      hide FromBig;
    }
    hide ReadFrame, UnwrapMediaFrame;
    if frame.magic == FRAME_MEDIA && i == 0 {
      UnwrappedWasTagged(tag, key, frame.payload);
      var segment := UnwrapMediaFrame(tag, key, frame.payload).value;
      TaggedInSlice(tag, key, stream, 4, at, segment, TLV_HEADER_LENGTH);
    } else {
      var j := if frame.magic == FRAME_MEDIA then i - 1 else i;
      HandedWereTagged(tag, key, frame.rest, j);
      TaggedInSuffix(tag, key, stream, at, ReadAll(tag, key, stream).segments[i]);
    }
  }

  lemma TaggedInSlice(tag: Tagger, key: Bytes, stream: Bytes, lo: nat, hi: nat, segment: Bytes,
                      p: nat)
    requires lo <= hi <= |stream| && TaggedAt(tag, key, stream[lo..hi], segment, p)
    ensures TaggedAt(tag, key, stream, segment, lo + p)
  {
    var n := |segment|;
    SliceOfSlice(stream, lo, hi, p, p + n);
    SliceOfSlice(stream, lo, hi, p + n, p + n + MEDIA_TAG_LENGTH);
  }

  lemma TaggedInSuffix(tag: Tagger, key: Bytes, stream: Bytes, at: nat, segment: Bytes)
    requires at <= |stream| && TaggedIn(tag, key, stream[at..], segment)
    ensures TaggedIn(tag, key, stream, segment)
  {
    var p: nat :| TaggedAt(tag, key, stream[at..], segment, p);
    assert stream[at..] == stream[at..|stream|];
    TaggedInSlice(tag, key, stream, at, |stream|, segment, p);
  }

  // ------------------------------------------------------- byte for byte

  lemma Pair(v: nat)
    requires v < TWO_16
    ensures Two(Big(v, 2)[1], Big(v, 2)[0]) == v
  {
    FromBigTwo(v);
    NumberOf(Big(v, 2));
  }

  /** A frame is its magic, a zero, the length of its body, high byte first, and the
      body, of less than 65536 bytes. */
  lemma FrameExactly(magic: byte, body: Bytes)
    ensures RelayFrame(magic, body).Some? <==> |body| < 0x1_0000
    ensures RelayFrame(magic, body).Some? ==>
              var frame := RelayFrame(magic, body).value;
              && |frame| == 4 + |body| && frame[0] == magic && frame[1] == 0x00
              && Two(frame[3], frame[2]) == |body| && frame[4..] == body
  {
    if |body| < 0x1_0000 {
      Pair(|body|);
      hide Big;
      var frame := RelayFrame(magic, body).value;
      assert frame == [magic, 0x00] + (Big(|body|, 2) + body);
      assert frame[2] == Big(|body|, 2)[0] && frame[3] == Big(|body|, 2)[1];
    }
  }

  /** A media frame: magic 0xf6, then 00 07 and the length of segment and tag, the
      segment, and its tag under the media key. */
  lemma MediaFrameExactly(tag: Tagger, key: Bytes, segment: Bytes)
    requires IsTagger(tag)
    ensures MediaFrame(tag, key, segment).Some? <==> |segment| + 24 < 0x1_0000
    ensures MediaFrame(tag, key, segment).Some? ==>
              var frame := MediaFrame(tag, key, segment).value;
              && |frame| == 28 + |segment|
              && frame[0] == 0xf6 && frame[1] == 0x00
              && Two(frame[3], frame[2]) == |segment| + 24
              && frame[4] == 0x00 && frame[5] == 0x07
              && Two(frame[7], frame[6]) == |segment| + 20
              && frame[8..8 + |segment|] == segment
              && frame[8 + |segment|..] == tag(key, segment)
  {
    assert |tag(key, segment)| == MEDIA_TAG_LENGTH;
    if |segment| + 24 < 0x1_0000 {
      var inner := MediaInner(tag, key, segment);
      InnerExactly(tag, key, segment);
      FrameExactly(FRAME_MEDIA, inner);
      hide RelayFrame, IsTagger, MediaInner;
      var frame := MediaFrame(tag, key, segment).value;
      assert forall k :: 0 <= k < |inner| ==> frame[4 + k] == frame[4..][k] == inner[k];
      assert frame[8..8 + |segment|] == inner[4..4 + |segment|];
      assert frame[8 + |segment|..] == inner[4 + |segment|..];
    }
  }

  lemma InnerExactly(tag: Tagger, key: Bytes, segment: Bytes)
    requires |tag(key, segment)| == 20 && |segment| + 20 < 0x1_0000
    ensures var inner := MediaInner(tag, key, segment);
            && |inner| == |segment| + 24 && inner[0] == 0x00 && inner[1] == 0x07
            && Two(inner[3], inner[2]) == |segment| + 20
            && inner[4..4 + |segment|] == segment && inner[4 + |segment|..] == tag(key, segment)
  {
    var length := Big(|segment| + 20, 2);
    Pair(|segment| + 20);
    hide Big;
    var inner := MediaInner(tag, key, segment);
    assert inner == [0x00, 0x07] + (length + (segment + tag(key, segment)));
    assert inner[2] == length[0] && inner[3] == length[1];
  }

  /** Which payloads of media frames are accepted, and the segment in them. */
  lemma UnwrappedExactly(tag: Tagger, key: Bytes, payload: Bytes)
    ensures UnwrapMediaFrame(tag, key, payload).Some?
            <==> && |payload| >= 24
                 && var inner := Two(payload[3], payload[2]);
                    && 20 <= inner && 4 + inner <= |payload|
                    && payload[inner - 16..4 + inner] == tag(key, payload[4..inner - 16])
    ensures UnwrapMediaFrame(tag, key, payload).Some? ==>
              UnwrapMediaFrame(tag, key, payload).value
              == payload[4..Two(payload[3], payload[2]) - 16]
  {
    if |payload| >= 24 {
      NumberOf(payload[2..4]);
      hide FromBig, FromLittle;
    }
  }

  /** When a stream holds a whole frame, and which. */
  lemma FrameReadExactly(stream: Bytes)
    ensures ReadFrame(stream).Some?
            <==> |stream| >= 4 && 4 + Two(stream[3], stream[2]) <= |stream|
    ensures ReadFrame(stream).Some? ==>
              var end := 4 + Two(stream[3], stream[2]);
              ReadFrame(stream).value == Raw(stream[0], stream[4..end], stream[end..])
  {
    if |stream| >= 4 {
      NumberOf(stream[2..4]);
      hide FromBig, FromLittle;
    }
  }

  /** A frame that is not media is passed over, a bad media frame ends the reading, a
      good one is handed over, and so on with what follows; a stream that holds no
      whole frame has ended. */
  lemma ReadExactly(tag: Tagger, key: Bytes, stream: Bytes)
    ensures ReadFrame(stream).None? ==> ReadAll(tag, key, stream) == Reading([], StreamEnded)
    ensures ReadFrame(stream).Some? ==>
              var frame := ReadFrame(stream).value;
              var segment := UnwrapMediaFrame(tag, key, frame.payload);
              var later := ReadAll(tag, key, frame.rest);
              ReadAll(tag, key, stream)
              == if frame.magic != 0xf6 then later
                 else if segment.None? then Reading([], BadMediaFrame)
                 else Reading([segment.value] + later.segments, later.ending)
  {
    hide ReadFrame, UnwrapMediaFrame;
  }

  /** The same when the connection is found closed after some frames: it is looked at
      before every frame. */
  lemma TurnsExactly(tag: Tagger, key: Bytes, stream: Bytes, turns: nat)
    ensures turns == 0 ==> ReadTurns(tag, key, stream, turns) == Reading([], Stopped)
    ensures turns > 0 && ReadFrame(stream).None? ==>
              ReadTurns(tag, key, stream, turns) == Reading([], StreamEnded)
    ensures turns > 0 && ReadFrame(stream).Some? ==>
              var frame := ReadFrame(stream).value;
              var segment := UnwrapMediaFrame(tag, key, frame.payload);
              var later := ReadTurns(tag, key, frame.rest, turns - 1);
              ReadTurns(tag, key, stream, turns)
              == if frame.magic != 0xf6 then later
                 else if segment.None? then Reading([], BadMediaFrame)
                 else Reading([segment.value] + later.segments, later.ending)
  {
    hide ReadFrame, UnwrapMediaFrame;
  }
}
