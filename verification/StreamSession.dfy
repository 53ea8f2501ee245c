/** The media side of a session: records are decrypted, told apart from control
    messages, cut into packets and reassembled into published frames. */
module StreamSession {
  import opened ByteStrings
  import opened Crypto
  import opened Media
  import opened Jpeg
  import opened JpegReassembly

  const CONTROL_MAGIC: nat := 0x12345678
  const MINIMUM_PACKET_LENGTH: nat := 8

  /** Whether a plaintext is a channel-0 message rather than media. */
  predicate IsControl(plaintext: Bytes) {
    |plaintext| >= MINIMUM_PACKET_LENGTH && FromLittle(plaintext[0..4]) == CONTROL_MAGIC
  }

  /** The media packets a record carries: none when it does not decrypt or is a
      control message. */
  function RecordPackets(cbc: Cbc, key: Bytes, record: Bytes): seq<Bytes> {
    match DecryptRecord(cbc, key, record)
    case None => []
    case Some(plaintext) => if IsControl(plaintext) then [] else Extract(plaintext)
  }

  /** The writes a list of packets asks for. */
  function Parsed(packets: seq<Bytes>): seq<Write> {
    if packets == [] then []
    else
      var w := Parse(packets[|packets| - 1]);
      Parsed(packets[..|packets| - 1]) + (if w.Some? then [w.value] else [])
  }

  datatype Session = Session(reassembly: Reassembly, frames: nat, published: seq<Bytes>)

  function FreshSession(): Session { Session(Empty(), 0, []) }

  /** What some writes make of a session. */
  function Feed(st: Session, ws: seq<Write>): Session {
    var frames := Published(st.reassembly, ws);
    Session(PutAll(st.reassembly, ws), st.frames + |frames|, st.published + frames)
  }

  function OnRecord(st: Session, cbc: Cbc, key: Bytes, record: Bytes): Session {
    Feed(st, Parsed(RecordPackets(cbc, key, record)))
  }

  function OnRecords(st: Session, cbc: Cbc, key: Bytes, records: seq<Bytes>): Session {
    if records == [] then st
    else OnRecord(OnRecords(st, cbc, key, records[..|records| - 1]), cbc, key,
                  records[|records| - 1])
  }

  class MediaSession {
    const cbc: Cbc
    const answerKey: Bytes
    const reassembler: JpegReassembler
    var frames: nat
    /** What the frame callback was called with. */
    ghost var published: seq<Bytes>

    ghost function Snapshot(): Session
      reads this, reassembler
    {
      Session(reassembler.Snapshot(), frames, published)
    }

    constructor (cbc: Cbc, answerKey: Bytes)
      ensures Snapshot() == FreshSession() && this.cbc == cbc && this.answerKey == answerKey
      ensures fresh(reassembler)
    {
      this.cbc, this.answerKey := cbc, answerKey;
      reassembler := new JpegReassembler();
      frames, published := 0, [];
    }

    method OnMediaRecord(record: Bytes)
      modifies this, reassembler
      ensures Snapshot() == OnRecord(old(Snapshot()), cbc, answerKey, record)
    {
      ghost var start := Snapshot();
      var plaintext := DecryptRecord(cbc, answerKey, record);
      if plaintext.None? || IsControl(plaintext.value) {
        return;
      }
      var packets := ExtractMediaPackets(plaintext.value);
      for i := 0 to |packets|
        invariant Snapshot() == Feed(start, Parsed(packets[..i]))
      {
        FeedPacket(start, packets, i);
        var frame := reassembler.Push(packets[i]);
        if frame.Some? {
          frames := frames + 1;
          published := published + [frame.value];
        }
      }
      assert packets[..|packets|] == packets;
    }
  }

  /** One more packet fed to a session. */
  lemma FeedPacket(start: Session, packets: seq<Bytes>, i: nat)
    requires i < |packets|
    ensures var before := Feed(start, Parsed(packets[..i]));
            var frame := Completed(before.reassembly, packets[i]);
            Feed(start, Parsed(packets[..i + 1]))
            == Session(Push(before.reassembly, packets[i]),
                       before.frames + (if frame.Some? then 1 else 0),
                       before.published + (if frame.Some? then [frame.value] else []))
  {
    var more := packets[..i + 1];
    assert more[..|more| - 1] == packets[..i] && more[|more| - 1] == packets[i];
    hide Put, Flush;
    if Parse(packets[i]).Some? {
      FeedWrite(start, Parsed(packets[..i]), Parse(packets[i]).value);
    } else {
      assert Parsed(more) == Parsed(packets[..i]);
    }
  }

  lemma FeedWrite(start: Session, ws: seq<Write>, w: Write)
    ensures var before := Feed(start, ws);
            var frame := Finishes(before.reassembly, w);
            Feed(start, ws + [w])
            == Session(Put(before.reassembly, w),
                       before.frames + (if frame.Some? then 1 else 0),
                       before.published + (if frame.Some? then [frame.value] else []))
  {
    assert (ws + [w])[..|ws|] == ws;
    var frame := Finishes(PutAll(start.reassembly, ws), w);
    ConcatAssoc(start.published, Published(start.reassembly, ws),
                if frame.Some? then [frame.value] else []);
  }

  // -------------------------------------------------- the whole stream

  lemma {:induction false} ParsedConcat(a: seq<Bytes>, b: seq<Bytes>)
    ensures Parsed(a + b) == Parsed(a) + Parsed(b)
  {
    hide Parse;
    if b == [] {
      assert a + b == a;
    } else {
      var n := |b| - 1;
      ParsedConcat(a, b[..n]);
      assert (a + b)[..|a + b| - 1] == a + b[..n];
    }
  }

  lemma FeedConcat(st: Session, a: seq<Write>, b: seq<Write>)
    ensures Feed(Feed(st, a), b) == Feed(st, a + b)
  {
    hide PutAll, Published;
    PutAllConcat(st.reassembly, a, b);
  }

  /** A media record is never taken for control: its first four bytes are a packet
      length, which is far below the control magic. */
  lemma MediaIsNotControl(packets: seq<Bytes>)
    requires forall i :: 0 <= i < |packets| ==> Sized(packets[i])
    ensures !IsControl(Pack(packets))
  {
    if packets != [] {
      var prefix := Little(|packets[0]|, LENGTH_PREFIX_LENGTH);
      PowersOf256();
      LittleRoundTrip(|packets[0]|, LENGTH_PREFIX_LENGTH);
      hide Little, FromLittle;
      assert Pack(packets)[0..4] == prefix;
    }
  }

  /** What arrives on the video conversation: an encrypted group of packets, or
      a record that does not decrypt or is a control message. */
  datatype Item = Group(packets: seq<Bytes>, iv: Bytes) | Noise(record: Bytes)

  ghost predicate ItemOk(cbc: Cbc, key: Bytes, item: Item) {
    match item
    case Group(packets, iv) =>
      && |iv| == AES_BLOCK_SIZE
      && (forall i :: 0 <= i < |packets| ==> Sized(packets[i]))
      && Unmistakable(Pack(packets), 0, packets)
    case Noise(record) =>
      var plaintext := DecryptRecord(cbc, key, record);
      plaintext.None? || IsControl(plaintext.value)
  }

  function RecordOf(cbc: Cbc, key: Bytes, item: Item): Bytes {
    match item
    case Group(packets, iv) => iv + EncryptCbc(cbc, key, iv, Pack(packets))
    case Noise(record) => record
  }

  function RecordsOf(cbc: Cbc, key: Bytes, items: seq<Item>): (records: seq<Bytes>)
    ensures |records| == |items|
  {
    seq(|items|, i requires 0 <= i < |items| => RecordOf(cbc, key, items[i]))
  }

  function Grouped(item: Item): seq<Bytes> { if item.Group? then item.packets else [] }

  function AllPackets(items: seq<Item>): seq<Bytes> {
    if items == [] then []
    else AllPackets(items[..|items| - 1]) + Grouped(items[|items| - 1])
  }

  lemma ItemPackets(cbc: Cbc, key: Bytes, item: Item)
    requires IsCipher(cbc) && |key| == MEDIA_KEY_SIZE && ItemOk(cbc, key, item)
    ensures RecordPackets(cbc, key, RecordOf(cbc, key, item)) == Grouped(item)
  {
    if item.Group? {
      hide IsCipher, Pack, EncryptCbc, DecryptRecord, Extract, IsControl, Sized, Unmistakable;
      RecordRoundTrip(cbc, key, item.iv, Pack(item.packets));
      MediaIsNotControl(item.packets);
      ExtractUnmistakable(item.packets);
    }
  }

  lemma {:induction false} RecordsFeed(st: Session, cbc: Cbc, key: Bytes, items: seq<Item>)
    requires IsCipher(cbc) && |key| == MEDIA_KEY_SIZE
    requires forall i :: 0 <= i < |items| ==> ItemOk(cbc, key, items[i])
    ensures OnRecords(st, cbc, key, RecordsOf(cbc, key, items))
            == Feed(st, Parsed(AllPackets(items)))
  {
    if items == [] {
      return;
    }
    var n := |items| - 1;
    RecordsOfPrefix(cbc, key, items);
    hide Feed, IsCipher, ItemOk, RecordPackets, RecordOf, RecordsOf, Grouped, Parsed;
    RecordsFeed(st, cbc, key, items[..n]);
    ItemPackets(cbc, key, items[n]);
    FeedConcat(st, Parsed(AllPackets(items[..n])), Parsed(Grouped(items[n])));
    ParsedConcat(AllPackets(items[..n]), Grouped(items[n]));
  }

  lemma RecordsOfPrefix(cbc: Cbc, key: Bytes, items: seq<Item>)
    requires items != []
    ensures var n := |items| - 1;
            && RecordsOf(cbc, key, items)[..n] == RecordsOf(cbc, key, items[..n])
            && RecordsOf(cbc, key, items)[n] == RecordOf(cbc, key, items[n])
  {
    hide RecordOf;
  }

  lemma {:induction false} ParsedFlatten(lists: seq<seq<Bytes>>, shipments: seq<seq<Write>>)
    requires |lists| == |shipments|
    requires forall k :: 0 <= k < |lists| ==> Parsed(lists[k]) == shipments[k]
    ensures Parsed(Flatten(lists)) == Flatten(shipments)
  {
    hide Parsed;
    if lists != [] {
      var n := |lists| - 1;
      ParsedFlatten(lists[..n], shipments[..n]);
      ParsedConcat(Flatten(lists[..n]), lists[n]);
    } else {
      ParsedNothing();
    }
  }

  lemma ParsedNothing()
    ensures Parsed([]) == []
  {
  }

  /** Items whose packets, after some that begin no frame, parse to shipments of the
      images. */
  ghost predicate ShippedIn(cbc: Cbc, key: Bytes, orphans: seq<Bytes>, images: seq<Bytes>,
                           lists: seq<seq<Bytes>>, items: seq<Item>) {
    && IsCipher(cbc) && |key| == MEDIA_KEY_SIZE && |lists| == |images|
    && (forall k :: 0 <= k < |images| ==>
          WholeJpeg(images[k]) && Shipment(Parsed(lists[k]), images[k]))
    && NoneBegins(Parsed(orphans)) && AllPackets(items) == orphans + Flatten(lists)
    && (forall i :: 0 <= i < |items| ==> ItemOk(cbc, key, items[i]))
  }

  function Shipments(lists: seq<seq<Bytes>>): (shipments: seq<seq<Write>>)
    ensures |shipments| == |lists|
    ensures forall k :: 0 <= k < |lists| ==> shipments[k] == Parsed(lists[k])
  {
    seq(|lists|, k requires 0 <= k < |lists| => Parsed(lists[k]))
  }

  /** What a fresh session that published some images and nothing else has made of
      them: all but the last, in order, counted, with the last in progress. */
  predicate PublishedAllOf(end: Session, images: seq<Bytes>) {
    && end.published == AllButLast(images)
    && end.frames == |end.published|
    && end.reassembly == InProgress(images)
  }

  lemma ImagesAreShipped(cbc: Cbc, key: Bytes, orphans: seq<Bytes>, images: seq<Bytes>,
                         lists: seq<seq<Bytes>>, items: seq<Item>)
    requires ShippedIn(cbc, key, orphans, images, lists, items)
    ensures AllShipped(Shipments(lists), images)
    ensures Parsed(AllPackets(items)) == Parsed(orphans) + Flatten(Shipments(lists))
  {
    hide IsCipher, ItemOk, Shipment, WholeJpeg, Parsed;
    ParsedConcat(orphans, Flatten(lists));
    ParsedFlatten(lists, Shipments(lists));
  }

  /** What a session makes of the items from the `k`-th on. */
  lemma ItemsFeed(cbc: Cbc, key: Bytes, orphans: seq<Bytes>, images: seq<Bytes>,
                  lists: seq<seq<Bytes>>, items: seq<Item>, k: nat)
    requires ShippedIn(cbc, key, orphans, images, lists, items) && k <= |items|
    ensures OnRecords(FreshSession(), cbc, key, RecordsOf(cbc, key, items[k..]))
            == Feed(FreshSession(), Parsed(AllPackets(items[k..])))
  {
    hide IsCipher, ItemOk, Shipment, WholeJpeg, Parsed, RecordsOf, OnRecords, AllPackets, Feed;
    RecordsFeed(FreshSession(), cbc, key, items[k..]);
  }

  lemma FedAfterOrphans(orphans: seq<Write>, shipments: seq<seq<Write>>, images: seq<Bytes>)
    requires NoneBegins(orphans) && AllShipped(shipments, images)
    ensures PublishedAllOf(Feed(FreshSession(), orphans + Flatten(shipments)), images)
  {
    hide AllShipped, Published, PutAll, NoneBegins, Flatten, InProgress, AllButLast;
    OrphansIgnored(orphans);
    PutAllConcat(Empty(), orphans, Flatten(shipments));
    ImagesComeBack(shipments, images);
    assert [] + AllButLast(images) == AllButLast(images);
  }

  lemma ShippedArePublished(cbc: Cbc, key: Bytes, orphans: seq<Bytes>, images: seq<Bytes>,
                            lists: seq<seq<Bytes>>, items: seq<Item>)
    requires ShippedIn(cbc, key, orphans, images, lists, items)
    ensures PublishedAllOf(OnRecords(FreshSession(), cbc, key, RecordsOf(cbc, key, items)), images)
  {
    assert NoneBegins(Parsed(orphans));
    ImagesAreShipped(cbc, key, orphans, images, lists, items);
    ItemsFeed(cbc, key, orphans, images, lists, items, 0);
    assert items[0..] == items;
    hide ShippedIn, AllShipped, NoneBegins, PublishedAllOf, Feed;
    FedAfterOrphans(Parsed(orphans), Shipments(lists), images);
  }

  lemma {:induction false} PacketsConcat(a: seq<Item>, b: seq<Item>)
    ensures AllPackets(a + b) == AllPackets(a) + AllPackets(b)
  {
    hide Grouped;
    if b == [] {
      assert a + b == a;
    } else {
      var n := |b| - 1;
      PacketsConcat(a, b[..n]);
      assert (a + b)[..|a + b| - 1] == a + b[..n];
      ConcatAssoc(AllPackets(a), AllPackets(b[..n]), Grouped(b[n]));
    }
  }

  lemma FedLate(early: seq<Write>, late: seq<Write>, images: seq<Bytes>)
    requires ComesBackLate(early + late, |early|, images)
    ensures Starts(early) <= |images|
    ensures PublishedAllOf(Feed(FreshSession(), late), images[Starts(early)..])
  {
    hide Published, PutAll, Starts, InProgress, AllButLast;
    assert (early + late)[..|early|] == early && (early + late)[|early|..] == late;
  }

  lemma LateShippedArePublished(cbc: Cbc, key: Bytes, images: seq<Bytes>,
                                lists: seq<seq<Bytes>>, items: seq<Item>, k: nat)
    requires ShippedIn(cbc, key, [], images, lists, items) && k <= |items|
    ensures var lost := Starts(Parsed(AllPackets(items[..k])));
            && lost <= |images|
            && PublishedAllOf(OnRecords(FreshSession(), cbc, key, RecordsOf(cbc, key, items[k..])),
                              images[lost..])
  {
    ImagesAreShipped(cbc, key, [], images, lists, items);
    ItemsFeed(cbc, key, [], images, lists, items, k);
    hide ShippedIn, AllShipped, ComesBackLate, PublishedAllOf, Starts, Feed, AllPackets;
    assert items[..k] + items[k..] == items;
    PacketsConcat(items[..k], items[k..]);
    var early, late := Parsed(AllPackets(items[..k])), Parsed(AllPackets(items[k..]));
    ParsedConcat(AllPackets(items[..k]), AllPackets(items[k..]));
    ParsedNothing();
    assert early + late == Flatten(Shipments(lists));
    LateImagesComeBack(Shipments(lists), images, |early|);
    FedLate(early, late, images);
  }

  // ------------------------------------------------ from images to frames

  /** Which plaintexts are channel-0 messages: eight bytes or more that start with the
      control magic, lowest byte first. */
  lemma ControlExactly(plaintext: Bytes)
    ensures IsControl(plaintext)
            <==> && |plaintext| >= 8 && plaintext[0] == 0x78 && plaintext[1] == 0x56
                 && plaintext[2] == 0x34 && plaintext[3] == 0x12
  {
    if |plaintext| >= 8 {
      NumberOf(plaintext[0..4]);
      hide FromLittle, FromBig;
    }
  }

  /** Whole images, each cut into pieces. */
  ghost predicate AllCut(images: seq<Bytes>, cuts: seq<seq<Piece>>) {
    && |cuts| == |images|
    && forall k :: 0 <= k < |images| ==> WholeJpeg(images[k]) && CutInto(images[k], cuts[k])
  }

  /** The packets of each image. */
  ghost function PacketLists(images: seq<Bytes>, cuts: seq<seq<Piece>>): (lists: seq<seq<Bytes>>)
    requires AllCut(images, cuts)
    ensures |lists| == |images|
    ensures forall k :: 0 <= k < |images| ==> lists[k] == PacketsOf(cuts[k], images[k])
  {
    seq(|images|, k requires 0 <= k < |images| => PacketsOf(cuts[k], images[k]))
  }

  /** Items that carry images: after packets none of which begins a frame, the packets
      of the images, one image after the other, grouped in any way in which no packet
      can be mistaken, with anything unreadable in between. */
  ghost predicate ImagesIn(cbc: Cbc, key: Bytes, orphans: seq<Bytes>, images: seq<Bytes>,
                           cuts: seq<seq<Piece>>, items: seq<Item>) {
    && IsCipher(cbc) && |key| == MEDIA_KEY_SIZE && AllCut(images, cuts)
    && (forall k :: 0 <= k < |orphans| ==> !BeginsFrame(orphans[k]))
    && AllPackets(items) == orphans + Flatten(PacketLists(images, cuts))
    && (forall i :: 0 <= i < |items| ==> ItemOk(cbc, key, items[i]))
  }

  /** How many packets begin a frame. */
  function FrameStarts(packets: seq<Bytes>): nat {
    if packets == [] then 0
    else FrameStarts(packets[..|packets| - 1])
         + (if BeginsFrame(packets[|packets| - 1]) then 1 else 0)
  }

  lemma {:induction false} FrameStartsAreStarts(packets: seq<Bytes>)
    ensures FrameStarts(packets) == Starts(Parsed(packets))
  {
    if packets != [] {
      var n := |packets| - 1;
      FrameStartsAreStarts(packets[..n]);
      BeginsExactly(packets[n]);
      hide BeginsFrame, Begins, Parse;
      var ws := Parsed(packets[..n]);
      if Parse(packets[n]).Some? {
        var w := Parse(packets[n]).value;
        assert (ws + [w])[..|ws|] == ws;
      } else {
        assert ws + [] == ws;
      }
    }
  }

  lemma {:induction false} NoFrameStarts(packets: seq<Bytes>)
    requires forall k :: 0 <= k < |packets| ==> !BeginsFrame(packets[k])
    ensures FrameStarts(packets) == 0
  {
    hide BeginsFrame;
    if packets != [] {
      NoFrameStarts(packets[..|packets| - 1]);
    }
  }

  /** The writes the packets of pieces ask for. */
  function WriteOf(piece: Piece, image: Bytes): Write
    requires Cuts(piece, image)
  {
    Write(piece.offset, image[piece.offset..piece.offset + piece.length])
  }

  function WritesOf(pieces: seq<Piece>, image: Bytes): (ws: seq<Write>)
    requires forall k :: 0 <= k < |pieces| ==> Cuts(pieces[k], image)
    ensures |ws| == |pieces|
    ensures forall k :: 0 <= k < |pieces| ==> ws[k] == WriteOf(pieces[k], image)
  {
    seq(|pieces|, k requires 0 <= k < |pieces| => WriteOf(pieces[k], image))
  }

  lemma {:induction false} PacketsParse(pieces: seq<Piece>, image: Bytes)
    requires forall k :: 0 <= k < |pieces| ==> Cuts(pieces[k], image)
    ensures Parsed(PacketsOf(pieces, image)) == WritesOf(pieces, image)
  {
    if pieces != [] {
      var n := |pieces| - 1;
      PacketsParse(pieces[..n], image);
      PieceArrives(pieces[n], image);
      assert Parse(PacketOf(pieces[n], image)) == Some(WriteOf(pieces[n], image));
      hide Cuts, PacketOf, Parse, WriteOf;
      assert PacketsOf(pieces, image)[..n] == PacketsOf(pieces[..n], image);
      assert WritesOf(pieces, image)
             == WritesOf(pieces[..n], image) + [WriteOf(pieces[n], image)];
    }
  }

  /** The packets of an image that was cut into pieces are a shipment of it. */
  lemma CutIsShipment(image: Bytes, pieces: seq<Piece>)
    requires CutInto(image, pieces)
    ensures Shipment(Parsed(PacketsOf(pieces, image)), image)
  {
    PacketsParse(pieces, image);
    hide PacketsOf, Parsed;
    var ws := WritesOf(pieces, image);
    forall i | 0 <= i < |image|
      ensures Covered(ws, i)
    {
      assert CoveredBy(pieces, i);
      var k :| 0 <= k < |pieces| && pieces[k].offset <= i < pieces[k].offset + pieces[k].length;
      assert ws[k].offset <= i < EndOfWrite(ws[k]);
    }
  }

  lemma ImagesShipped(cbc: Cbc, key: Bytes, orphans: seq<Bytes>, images: seq<Bytes>,
                      cuts: seq<seq<Piece>>, items: seq<Item>)
    requires ImagesIn(cbc, key, orphans, images, cuts, items)
    ensures ShippedIn(cbc, key, orphans, images, PacketLists(images, cuts), items)
  {
    hide IsCipher, ItemOk, Shipment, WholeJpeg, Parsed, BeginsFrame, CutInto, AllPackets, PacketsOf;
    NoFrameStarts(orphans);
    FrameStartsAreStarts(orphans);
    forall k | 0 <= k < |images|
      ensures Shipment(Parsed(PacketLists(images, cuts)[k]), images[k])
    {
      CutIsShipment(images[k], cuts[k]);
    }
  }

  /** From records to frames: the records of any images make a fresh session publish
      them, all but the last. Packets in front that begin no frame, as those of an
      image cut in two, make no difference. */
  lemma ImagesArePublished(cbc: Cbc, key: Bytes, orphans: seq<Bytes>, images: seq<Bytes>,
                           cuts: seq<seq<Piece>>, items: seq<Item>)
    requires ImagesIn(cbc, key, orphans, images, cuts, items)
    ensures PublishedAllOf(OnRecords(FreshSession(), cbc, key, RecordsOf(cbc, key, items)), images)
  {
    ImagesShipped(cbc, key, orphans, images, cuts, items);
    var lists := PacketLists(images, cuts);
    hide ImagesIn, ShippedIn, PublishedAllOf, OnRecords, AllCut;
    ShippedArePublished(cbc, key, orphans, images, lists, items);
  }

  /** A session that misses the first `k` records: the images that began in those are
      lost, also one that was cut in two, and those after them are published, all
      but the last. */
  lemma LateImagesArePublished(cbc: Cbc, key: Bytes, images: seq<Bytes>,
                               cuts: seq<seq<Piece>>, items: seq<Item>, k: nat)
    requires ImagesIn(cbc, key, [], images, cuts, items) && k <= |items|
    ensures var lost := FrameStarts(AllPackets(items[..k]));
            && lost <= |images|
            && PublishedAllOf(OnRecords(FreshSession(), cbc, key, RecordsOf(cbc, key, items[k..])),
                              images[lost..])
  {
    ImagesShipped(cbc, key, [], images, cuts, items);
    FrameStartsAreStarts(AllPackets(items[..k]));
    var lists := PacketLists(images, cuts);
    hide ImagesIn, ShippedIn, PublishedAllOf, OnRecords, AllCut, Starts, FrameStarts, AllPackets;
    LateShippedArePublished(cbc, key, images, lists, items, k);
  }
}
