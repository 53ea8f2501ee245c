/** The signaling tunnel on the relay's byte stream: what its pushes are written as,
    and what the other end makes of those bytes. */
module TunnelStream {
  import opened ByteStrings
  import opened KcpSegment
  import opened Crypto
  import opened RelayFraming
  import opened KcpOverRelay
  import opened Tunnel

  /** What one push is written as; None is the overflow of a push too long. */
  function PushFrame(tag: Tagger, key: Bytes, push: Segment): Option<Bytes> {
    var raw := BuildSegment(push);
    if raw.None? then None else MediaFrame(tag, key, raw.value)
  }

  /** What pushes that fit are written as, one after the other. */
  function PushBytes(tag: Tagger, key: Bytes, pushes: seq<Segment>): Bytes {
    if pushes == [] then []
    else
      var frame := PushFrame(tag, key, pushes[|pushes| - 1]);
      PushBytes(tag, key, pushes[..|pushes| - 1]) + (if frame.None? then [] else frame.value)
  }

  lemma PushBytesAppend(tag: Tagger, key: Bytes, pushes: seq<Segment>, push: Segment)
    requires PushFrame(tag, key, push).Some?
    ensures PushBytes(tag, key, pushes + [push])
            == PushBytes(tag, key, pushes) + PushFrame(tag, key, push).value
  {
    hide PushFrame;
    assert (pushes + [push])[..|pushes|] == pushes;
  }

  /** What pushes are written as by a connection that is up, or that is not. */
  function WrittenIf(up: bool, tag: Tagger, key: Bytes, pushes: seq<Segment>): Bytes {
    if up then PushBytes(tag, key, pushes) else []
  }

  lemma WrittenIfOne(up: bool, tag: Tagger, key: Bytes, push: Segment)
    requires PushFrame(tag, key, push).Some?
    ensures WrittenIf(up, tag, key, [push])
            == if up then PushFrame(tag, key, push).value else []
  {
    hide PushFrame;
    PushBytesAppend(tag, key, [], push);
    assert [] + [push] == [push];
  }

  /** One more record sent. */
  lemma WrittenIfMore(up: bool, tag: Tagger, key: Bytes, first: nat, records: seq<Bytes>,
                      record: Bytes, before: Bytes)
    requires IsTagger(tag) && RecordShaped(record)
    ensures before + WrittenIf(up, tag, key, Pushes(first, records))
            + WrittenIf(up, tag, key, [TunnelPush(first + |records|, record)])
            == before + WrittenIf(up, tag, key, Pushes(first, records + [record]))
  {
    var push := TunnelPush(first + |records|, record);
    ShapedFits(tag, key, first + |records|, record);
    WrittenIfOne(up, tag, key, push);
    PushesAppend(first, records, record);
    PushBytesAppend(tag, key, Pushes(first, records), push);
    hide PushFrame, PushBytes, Pushes;
    ConcatAssoc(before, WrittenIf(up, tag, key, Pushes(first, records)),
                WrittenIf(up, tag, key, [push]));
  }

  lemma NothingWritten(up: bool, tag: Tagger, key: Bytes, first: nat)
    ensures Pushes(first, []) == [] && WrittenIf(up, tag, key, Pushes(first, [])) == []
  {
  }

  /** A record of the right shape can be built, framed and written. */
  lemma ShapedFits(tag: Tagger, key: Bytes, sequence: nat, record: Bytes)
    requires IsTagger(tag) && RecordShaped(record)
    ensures Carriable(TunnelPush(sequence, record))
    ensures PushFrame(tag, key, TunnelPush(sequence, record)).Some?
  {
    CarriableParses(TunnelPush(sequence, record));
    MediaFrameFits(tag, key, BuildSegment(TunnelPush(sequence, record)).value);
    hide BuildSegment, MediaFrame, ParseSegment, IsTagger;
  }

  /** The media frames of some segments and nothing else. */
  function AsItems(raws: seq<Bytes>): (items: seq<Item>)
    ensures |items| == |raws|
    ensures forall i :: 0 <= i < |raws| ==> items[i] == Media(raws[i])
  {
    seq(|raws|, i requires 0 <= i < |raws| => Media(raws[i]))
  }

  lemma {:induction false} SegmentsOfItems(raws: seq<Bytes>)
    ensures Segments(AsItems(raws)) == raws
  {
    if raws != [] {
      assert AsItems(raws)[1..] == AsItems(raws[1..]);
      SegmentsOfItems(raws[1..]);
    }
  }

  lemma {:induction false} WrittenAppend(tag: Tagger, key: Bytes, items: seq<Item>, last: Item)
    requires IsTagger(tag) && AllFramable(items) && Framable(last)
    ensures AllFramable(items + [last]) && FrameOf(tag, key, last).Some?
    ensures Written(tag, key, items + [last])
            == Written(tag, key, items) + FrameOf(tag, key, last).value
  {
    FramesBuild(tag, key, last);
    hide IsTagger, Framable, FrameOf;
    if items == [] {
      assert items + [last] == [last];
      assert Written(tag, key, [last]) == FrameOf(tag, key, last).value + [];
    } else {
      FramesBuild(tag, key, items[0]);
      WrittenAppend(tag, key, items[1..], last);
      assert (items + [last])[1..] == items[1..] + [last];
      ConcatAssoc(FrameOf(tag, key, items[0]).value, Written(tag, key, items[1..]),
                  FrameOf(tag, key, last).value);
    }
  }

  lemma ItemsAppend(pushes: seq<Segment>, last: Segment)
    ensures AsItems(Encoded(pushes + [last]))
            == AsItems(Encoded(pushes)) + [Media(Encoded([last])[0])]
  {
    hide BuildSegment;
  }

  /** Pushes that can be carried are written as their media frames. */
  lemma {:induction false} PushBytesAreWritten(tag: Tagger, key: Bytes, pushes: seq<Segment>)
    requires IsTagger(tag) && AllCarriable(pushes)
    ensures AllFramable(AsItems(Encoded(pushes)))
    ensures PushBytes(tag, key, pushes) == Written(tag, key, AsItems(Encoded(pushes)))
  {
    EncodedParses(pushes);
    if pushes != [] {
      var n := |pushes| - 1;
      var last := pushes[n];
      assert pushes[..n] + [last] == pushes;
      assert Carriable(last);
      CarriableParses(last);
      ItemsAppend(pushes[..n], last);
      hide IsTagger, MediaFrame, BuildSegment, ParseSegment, AsItems, Written, Framable, ParsesTo;
      PushBytesAreWritten(tag, key, pushes[..n]);
      WrittenAppend(tag, key, AsItems(Encoded(pushes[..n])), Media(Encoded([last])[0]));
    }
  }

  lemma TunnelPushesCarriable(first: nat, records: seq<Bytes>)
    requires forall k :: 0 <= k < |records| ==> RecordShaped(records[k])
    ensures AllCarriable(Pushes(first, records))
  {
  }

  /** What the pushes that were read carry. */
  function Payloads(raws: seq<Bytes>): seq<Bytes> {
    seq(|raws|, i requires 0 <= i < |raws| =>
      var segment := ParseSegment(raws[i]);
      if segment.None? then [] else segment.value.data)
  }

  /** Every segment read is a push of the tunnel, in sequence. */
  predicate ReadInSequence(read: seq<Bytes>, first: nat) {
    forall k :: 0 <= k < |read| ==>
      var segment := ParseSegment(read[k]);
      && segment.Some? && segment.value.command == CMD_PUSH
      && segment.value.conversation == SIGNALING_CONVERSATION
      && segment.value.sequence == (first + k) % TWO_32
  }

  lemma ReadPushes(read: seq<Bytes>, first: nat, records: seq<Bytes>)
    requires ParsesTo(read, Pushes(first, records))
    ensures ReadInSequence(read, first) && Payloads(read) == records
  {
    hide ParseSegment;
  }

  /** Byte for byte: for any frame up to 65535 bytes, what is written for it is read
      off the stream as pushes of the signaling conversation with consecutive
      sequences, and their payloads decrypted, unpadded once and cut by the 16-bit
      length give the frame. */
  lemma TunnelFrameArrives(tag: Tagger, mediaKey: Bytes, cbc: Cbc, key: Bytes, frame: Bytes,
                           ivs: nat -> Bytes, first: nat)
    requires IsTagger(tag) && IsCipher(cbc) && (forall k :: |ivs(k)| == AES_BLOCK_SIZE)
    requires |frame| < TWO_16
    ensures var bytes := PushBytes(tag, mediaKey, Pushes(first, Records(cbc, key, frame, ivs)));
            var read := ReadAll(tag, mediaKey, bytes).segments;
            && ReadInSequence(read, first)
            && Unpad(DecryptAll(cbc, key, Payloads(read))) == Some(TunnelBody(frame))
            && CutFrame(TunnelBody(frame)) == frame
  {
    var records := Records(cbc, key, frame, ivs);
    var pushes := Pushes(first, records);
    TunnelRoundTrip(cbc, key, frame, ivs);
    TunnelPushesCarriable(first, records);
    PushBytesAreWritten(tag, mediaKey, pushes);
    hide IsTagger, IsCipher, Records, ReadAll, Written, DecryptAll, CutFrame, TunnelBody, Encoded;
    hide RecordShaped, PushBytes, ReadInSequence, Payloads, Pushes, AllCarriable, ParsesTo, Unpad;
    SegmentsOfItems(Encoded(pushes));
    SegmentsArrive(pushes, tag, mediaKey, AsItems(Encoded(pushes)));
    var read := ReadAll(tag, mediaKey, PushBytes(tag, mediaKey, pushes)).segments;
    ReadPushes(read, first, records);
  }
}
