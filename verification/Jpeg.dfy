/** Offset-addressed reassembly of JPEG frames, as values: the buffer, and the
    list of writes it stands for. */
module Jpeg {
  import opened ByteStrings
  import opened Media

  const SOI: Bytes := [0xff, 0xd8]
  const EOI: Bytes := [0xff, 0xd9]
  const MINIMUM_FRAME_LENGTH: nat := 4

  predicate StartsWithSoi(data: Bytes) { At(data, SOI, 0) }

  datatype Reassembly = Reassembly(buffer: Option<Bytes>, maxEnd: nat)

  function Empty(): Reassembly { Reassembly(None, 0) }

  // ------------------------------------------------------ one packet

  /** What a packet asks for: its payload at its offset. */
  datatype Write = Write(offset: nat, data: Bytes)

  /** A packet without payload asks for nothing. */
  function Parse(packet: Bytes): Option<Write> {
    if |packet| <= MEDIA_HEADER_LENGTH then None
    else Some(Write(FromBig(packet[MEDIA_OFFSET_FIELD..MEDIA_OFFSET_FIELD + 4]),
                    packet[MEDIA_HEADER_LENGTH..]))
  }

  function EndOfWrite(w: Write): nat { w.offset + |w.data| }

  /** Whether a write begins a new frame. */
  predicate Begins(w: Write) { w.offset == 0 && StartsWithSoi(w.data) }

  predicate Fits(w: Write) { EndOfWrite(w) <= MAX_FRAME_SIZE }

  /** `bytes(n)`. */
  function Zeros(n: nat): (z: Bytes)
    ensures |z| == n
  {
    seq(n, i => 0)
  }

  /** The buffer zero-extended to hold the data, with the data written in. */
  function Overlay(buffer: Bytes, w: Write): (b: Bytes)
    ensures |b| == Max(|buffer|, EndOfWrite(w))
  {
    var end := EndOfWrite(w);
    var extended := if end > |buffer| then buffer + Zeros(end - |buffer|) else buffer;
    extended[..w.offset] + w.data + extended[end..]
  }

  function Place(st: Reassembly, w: Write): Reassembly {
    if st.buffer.None? || !Fits(w) then st
    else Reassembly(Some(Overlay(st.buffer.value, w)), Max(st.maxEnd, EndOfWrite(w)))
  }

  function Put(st: Reassembly, w: Write): Reassembly {
    Place(if Begins(w) then Reassembly(Some([]), 0) else st, w)
  }

  function Push(st: Reassembly, packet: Bytes): Reassembly {
    match Parse(packet)
    case None => st
    case Some(w) => Put(st, w)
  }

  /** The frame in progress, if it is a complete JPEG: from its start marker to
      its last end marker. */
  function Flush(st: Reassembly): Option<Bytes> {
    if st.buffer.None? || st.maxEnd < MINIMUM_FRAME_LENGTH then None
    else
      var data := Slice(st.buffer.value, 0, st.maxEnd);
      if !StartsWithSoi(data) then None
      else
        var end := RFind(data, EOI, |data|);
        if end < |SOI| then None else Some(data[..end + |EOI|])
  }

  /** The frame a write completes. */
  function Finishes(st: Reassembly, w: Write): Option<Bytes> {
    if Begins(w) then Flush(st) else None
  }

  /** The frame a packet completes. */
  function Completed(st: Reassembly, packet: Bytes): Option<Bytes> {
    match Parse(packet)
    case None => None
    case Some(w) => Finishes(st, w)
  }

  // ------------------------------------------------- the list of writes

  /** The byte of the latest write that covers a position, or zero. */
  function ByteAt(writes: seq<Write>, i: nat): byte {
    if writes == [] then 0
    else
      var w := writes[|writes| - 1];
      if w.offset <= i < EndOfWrite(w) then w.data[i - w.offset]
      else ByteAt(writes[..|writes| - 1], i)
  }

  function Extent(writes: seq<Write>): nat {
    if writes == [] then 0
    else Max(Extent(writes[..|writes| - 1]), EndOfWrite(writes[|writes| - 1]))
  }

  /** The bytes a list of writes leaves behind. */
  function Render(writes: seq<Write>): (b: Bytes)
    ensures |b| == Extent(writes)
    ensures forall i :: 0 <= i < |b| ==> b[i] == ByteAt(writes, i)
  {
    seq(Extent(writes), i requires 0 <= i => ByteAt(writes, i))
  }

  /** The accepted writes of the frame in progress, after one more. */
  function WritesAfter(before: Option<seq<Write>>, w: Write): Option<seq<Write>> {
    var base := if Begins(w) then Some([]) else before;
    if base.None? || !Fits(w) then base else Some(base.value + [w])
  }

  /** The buffer is what the accepted writes leave behind, and its recorded end
      is its length and within the cap. */
  predicate Refines(st: Reassembly, writes: Option<seq<Write>>) {
    match writes
    case None => st == Empty()
    case Some(ws) => st.buffer == Some(Render(ws)) && st.maxEnd == Extent(ws) <= MAX_FRAME_SIZE
  }

  lemma {:induction false} BeyondExtent(writes: seq<Write>, i: nat)
    requires i >= Extent(writes)
    ensures ByteAt(writes, i) == 0
  {
    if writes != [] {
      BeyondExtent(writes[..|writes| - 1], i);
    }
  }

  lemma AppendWrite(writes: seq<Write>, w: Write, i: nat)
    ensures Extent(writes + [w]) == Max(Extent(writes), EndOfWrite(w))
    ensures ByteAt(writes + [w], i)
            == if w.offset <= i < EndOfWrite(w) then w.data[i - w.offset] else ByteAt(writes, i)
  {
    assert (writes + [w])[..|writes|] == writes;
  }

  lemma OverlayAt(buffer: Bytes, w: Write, i: nat)
    requires i < |Overlay(buffer, w)|
    ensures Overlay(buffer, w)[i]
            == if w.offset <= i < EndOfWrite(w) then w.data[i - w.offset]
               else if i < |buffer| then buffer[i] else 0
  {
  }

  lemma OverlayRenders(writes: seq<Write>, w: Write)
    ensures Overlay(Render(writes), w) == Render(writes + [w])
    ensures Extent(writes + [w]) == Max(Extent(writes), EndOfWrite(w))
  {
    hide Overlay, Extent, ByteAt, Render;
    AppendWrite(writes, w, 0);
    forall i | 0 <= i < Extent(writes + [w])
      ensures Overlay(Render(writes), w)[i] == Render(writes + [w])[i]
    {
      AppendWrite(writes, w, i);
      OverlayAt(Render(writes), w, i);
      if i >= Extent(writes) {
        BeyondExtent(writes, i);
      }
    }
  }

  lemma EmptyRender()
    ensures Render([]) == [] && Extent([]) == 0
  {
  }

  lemma PutRefines(st: Reassembly, writes: Option<seq<Write>>, w: Write)
    requires Refines(st, writes)
    ensures Refines(Put(st, w), WritesAfter(writes, w))
  {
    hide Overlay, Extent, ByteAt, Render;
    EmptyRender();
    if Begins(w) {
      OverlayRenders([], w);
    } else if writes.Some? {
      OverlayRenders(writes.value, w);
    }
  }

  datatype Happening = Packet(packet: Bytes) | Reset

  function StepOn(st: Reassembly, h: Happening): Reassembly {
    if h.Reset? then Empty() else Push(st, h.packet)
  }

  function RunOn(st: Reassembly, hs: seq<Happening>): Reassembly {
    if hs == [] then st else StepOn(RunOn(st, hs[..|hs| - 1]), hs[|hs| - 1])
  }

  /** The packets accepted since the frame in progress started, as writes. */
  function Writes(hs: seq<Happening>): Option<seq<Write>> {
    if hs == [] then None
    else
      var before := Writes(hs[..|hs| - 1]);
      var last := hs[|hs| - 1];
      if last.Reset? then None
      else
        match Parse(last.packet)
        case None => before
        case Some(w) => WritesAfter(before, w)
  }

  /** After any packets and resets the buffer is exactly the last-writer-wins
      rendering of the packets accepted since the frame in progress started. */
  lemma {:induction false} BufferRefinesWrites(hs: seq<Happening>)
    ensures Refines(RunOn(Empty(), hs), Writes(hs))
  {
    if hs != [] {
      var n := |hs| - 1;
      hide Refines, Put, WritesAfter, Parse, Begins;
      BufferRefinesWrites(hs[..n]);
      if hs[n].Packet? && Parse(hs[n].packet).Some? {
        PutRefines(RunOn(Empty(), hs[..n]), Writes(hs[..n]), Parse(hs[n].packet).value);
      }
    }
  }

  // ------------------------------------------------------ frames returned

  predicate WholeJpeg(frame: Bytes) {
    && MINIMUM_FRAME_LENGTH <= |frame| <= MAX_FRAME_SIZE
    && StartsWithSoi(frame) && At(frame, EOI, |frame| - |EOI|)
  }

  lemma FlushIsWhole(st: Reassembly)
    requires st.buffer.Some? ==> |st.buffer.value| <= MAX_FRAME_SIZE
    ensures Flush(st).Some? ==> WholeJpeg(Flush(st).value)
  {
    if Flush(st).Some? {
      hide RFind;
      var data := Slice(st.buffer.value, 0, st.maxEnd);
      var end := RFind(data, EOI, |data|);
      assert At(data, EOI, end);
      assert EOI[0] == data[end + 0] && EOI[1] == data[end + 1];
    }
  }

  /** Every frame handed back is a whole JPEG within the size cap. */
  lemma FramesAreWhole(hs: seq<Happening>, packet: Bytes)
    ensures var frame := Completed(RunOn(Empty(), hs), packet);
            frame.Some? ==> WholeJpeg(frame.value)
  {
    BufferRefinesWrites(hs);
    hide Flush, WholeJpeg, Parse, Writes, RunOn, Render, Extent;
    FlushIsWhole(RunOn(Empty(), hs));
  }

  predicate IsStart(h: Happening) {
    h.Packet? && Parse(h.packet).Some? && Begins(Parse(h.packet).value)
  }

  function StartCount(hs: seq<Happening>): nat {
    if hs == [] then 0
    else StartCount(hs[..|hs| - 1]) + (if IsStart(hs[|hs| - 1]) then 1 else 0)
  }

  /** The frames returned over a run. */
  function Frames(st: Reassembly, hs: seq<Happening>): seq<Bytes> {
    if hs == [] then []
    else
      var before := hs[..|hs| - 1];
      var last := hs[|hs| - 1];
      Frames(st, before)
      + (if last.Packet? && Completed(RunOn(st, before), last.packet).Some?
         then [Completed(RunOn(st, before), last.packet).value] else [])
  }

  /** From a fresh reassembler, n frame starts return at most n - 1 frames,
      resets included. */
  lemma {:induction false} FewerFramesThanStarts(hs: seq<Happening>)
    ensures StartCount(hs) == 0 ==>
              Frames(Empty(), hs) == [] && RunOn(Empty(), hs).buffer.None?
    ensures StartCount(hs) > 0 ==> |Frames(Empty(), hs)| <= StartCount(hs) - 1
  {
    if hs != [] {
      FewerFramesThanStarts(hs[..|hs| - 1]);
    }
  }

  // ------------------------------------------------------- whole images

  /** A write of a piece of the image at its offset. */
  predicate PieceOf(w: Write, image: Bytes) {
    EndOfWrite(w) <= |image| && w.data == image[w.offset..EndOfWrite(w)]
  }

  predicate AllPieces(ws: seq<Write>, image: Bytes) {
    forall k :: 0 <= k < |ws| ==> PieceOf(ws[k], image)
  }

  ghost predicate Covered(ws: seq<Write>, i: nat) {
    exists k :: 0 <= k < |ws| && ws[k].offset <= i < EndOfWrite(ws[k])
  }

  /** The piece at offset zero, of at least two bytes, once and first; then
      pieces at other offsets, in any order and any number of times. */
  predicate StartsOnce(ws: seq<Write>) {
    && ws != [] && ws[0].offset == 0 && |ws[0].data| >= 2
    && forall k :: 0 < k < |ws| ==> ws[k].offset > 0
  }

  /** The writes of one image: it starts once, and the pieces cover it. */
  ghost predicate Shipment(ws: seq<Write>, image: Bytes) {
    && StartsOnce(ws) && AllPieces(ws, image)
    && forall i {:trigger Covered(ws, i)} :: 0 <= i < |image| ==> Covered(ws, i)
  }

  function PutAll(st: Reassembly, ws: seq<Write>): Reassembly {
    if ws == [] then st else Put(PutAll(st, ws[..|ws| - 1]), ws[|ws| - 1])
  }

  /** The frames a list of writes completes. */
  function Published(st: Reassembly, ws: seq<Write>): seq<Bytes> {
    if ws == [] then []
    else
      var before := ws[..|ws| - 1];
      var frame := Finishes(PutAll(st, before), ws[|ws| - 1]);
      Published(st, before) + (if frame.Some? then [frame.value] else [])
  }

  function FlushedList(st: Reassembly): seq<Bytes> {
    if Flush(st).Some? then [Flush(st).value] else []
  }

  lemma FirstWrite(st: Reassembly, w: Write)
    requires Begins(w) && Fits(w)
    ensures Refines(Put(st, w), Some([w]))
  {
    EmptyRender();
    OverlayRenders([], w);
    assert [] + [w] == [w];
  }

  /** The start of a shipment, whatever came before, leaves its own writes. */
  lemma {:induction false} ShipmentWrites(st: Reassembly, ws: seq<Write>, image: Bytes)
    requires |image| <= MAX_FRAME_SIZE && StartsWithSoi(image)
    requires StartsOnce(ws) && AllPieces(ws, image)
    ensures Refines(PutAll(st, ws), Some(ws))
    ensures Published(st, ws) == FlushedList(st)
  {
    var n := |ws| - 1;
    assert PieceOf(ws[n], image);
    if n == 0 {
      assert ws[..0] == [] && ws == [ws[0]];
      assert Begins(ws[0]);
      FirstWrite(st, ws[0]);
    } else {
      assert !Begins(ws[n]) && Fits(ws[n]);
      assert ws[..n] + [ws[n]] == ws;
      ShipmentWrites(st, ws[..n], image);
      hide Refines, Put, Begins, Flush;
      PutRefines(PutAll(st, ws[..n]), Some(ws[..n]), ws[n]);
    }
  }

  lemma {:induction false} PiecesWithin(ws: seq<Write>, image: Bytes)
    requires AllPieces(ws, image)
    ensures Extent(ws) <= |image|
  {
    if ws != [] {
      PiecesWithin(ws[..|ws| - 1], image);
      assert PieceOf(ws[|ws| - 1], image);
    }
  }

  /** Pieces of an image render it wherever they reach. */
  lemma {:induction false} PiecesRender(ws: seq<Write>, image: Bytes, i: nat)
    requires AllPieces(ws, image) && Covered(ws, i)
    ensures i < |image| && i < Extent(ws) && ByteAt(ws, i) == image[i]
  {
    var n := |ws| - 1;
    assert PieceOf(ws[n], image);
    if !(ws[n].offset <= i < EndOfWrite(ws[n])) {
      var k :| 0 <= k < |ws| && ws[k].offset <= i < EndOfWrite(ws[k]);
      assert ws[..n][k] == ws[k];
      PiecesRender(ws[..n], image, i);
    }
  }

  lemma ShipmentRenders(ws: seq<Write>, image: Bytes)
    requires Shipment(ws, image) && image != []
    ensures Render(ws) == image && Extent(ws) == |image|
  {
    hide ByteAt, Extent, Render, StartsOnce, AllPieces;
    PiecesWithin(ws, image);
    assert Covered(ws, |image| - 1);
    PiecesRender(ws, image, |image| - 1);
    forall i | 0 <= i < |image|
      ensures ByteAt(ws, i) == image[i]
    {
      assert Covered(ws, i);
      PiecesRender(ws, image, i);
    }
  }

  lemma ShipmentBuffer(st: Reassembly, ws: seq<Write>, image: Bytes)
    requires WholeJpeg(image) && Shipment(ws, image)
    ensures PutAll(st, ws) == Reassembly(Some(image), |image|)
    ensures Published(st, ws) == FlushedList(st)
  {
    hide PutAll, Published, Flush, Render, Extent, StartsOnce, AllPieces;
    ShipmentWrites(st, ws, image);
    ShipmentRenders(ws, image);
  }

  lemma ImageFlushes(image: Bytes)
    requires WholeJpeg(image)
    ensures Flush(Reassembly(Some(image), |image|)) == Some(image)
  {
    assert image[0..|image|] == image;
    hide RFind;
    var end := RFind(image, EOI, |image|);
    assert end == |image| - 2;
    assert image[..end + 2] == image;
  }

  /** From any prior state, the writes of an image make the next frame start
      return exactly the image. */
  lemma ImageComesBack(st: Reassembly, ws: seq<Write>, image: Bytes, next: Write)
    requires WholeJpeg(image) && Shipment(ws, image) && Begins(next)
    ensures Finishes(PutAll(st, ws), next) == Some(image)
  {
    ShipmentBuffer(st, ws, image);
    ImageFlushes(image);
  }

  function Flatten<T>(parts: seq<seq<T>>): seq<T> {
    if parts == [] then [] else Flatten(parts[..|parts| - 1]) + parts[|parts| - 1]
  }

  lemma {:induction false} PutAllConcat(st: Reassembly, a: seq<Write>, b: seq<Write>)
    ensures PutAll(st, a + b) == PutAll(PutAll(st, a), b)
    ensures Published(st, a + b) == Published(st, a) + Published(PutAll(st, a), b)
  {
    hide Put, Finishes;
    if b == [] {
      assert a + b == a;
    } else {
      var n := |b| - 1;
      PutAllConcat(st, a, b[..n]);
      assert (a + b)[..|a + b| - 1] == a + b[..n];
    }
  }

  /** The reassembler in the middle of the last of some images. */
  function InProgress(images: seq<Bytes>): Reassembly {
    if images == [] then Empty()
    else Reassembly(Some(images[|images| - 1]), |images[|images| - 1]|)
  }

  function AllButLast(images: seq<Bytes>): seq<Bytes> {
    if images == [] then [] else images[..|images| - 1]
  }

  /** Whole images, each with a shipment of its own. */
  ghost predicate AllShipped(shipments: seq<seq<Write>>, images: seq<Bytes>) {
    && |shipments| == |images|
    && forall k :: 0 <= k < |images| ==>
         WholeJpeg(images[k]) && Shipment(shipments[k], images[k])
  }

  predicate LastIsWhole(images: seq<Bytes>) {
    images == [] || WholeJpeg(images[|images| - 1])
  }

  lemma TheLastShipped(shipments: seq<seq<Write>>, images: seq<Bytes>)
    requires AllShipped(shipments, images) && images != []
    ensures var n := |images| - 1;
            && AllShipped(shipments[..n], images[..n])
            && WholeJpeg(images[n]) && Shipment(shipments[n], images[n])
            && Flatten(shipments) == Flatten(shipments[..n]) + shipments[n]
            && images[..n] + [images[n]] == images
  {
    hide WholeJpeg, Shipment;
  }

  lemma AllAreWhole(shipments: seq<seq<Write>>, images: seq<Bytes>, from: nat)
    requires AllShipped(shipments, images) && from <= |images|
    ensures LastIsWhole(images[from..])
  {
    hide WholeJpeg, Shipment;
  }

  /** A stream of images from a fresh reassembler: all but the last come back,
      in order, and the last one is in progress. */
  lemma {:induction false} ImagesComeBack(shipments: seq<seq<Write>>, images: seq<Bytes>)
    requires AllShipped(shipments, images)
    ensures Published(Empty(), Flatten(shipments)) == AllButLast(images)
    ensures PutAll(Empty(), Flatten(shipments)) == InProgress(images)
  {
    if images == [] {
      return;
    }
    var n := |images| - 1;
    TheLastShipped(shipments, images);
    hide AllShipped, Shipment, WholeJpeg, PutAll, Published, InProgress, AllButLast, Flatten;
    ImagesComeBack(shipments[..n], images[..n]);
    AllAreWhole(shipments[..n], images[..n], 0);
    assert images[..n][0..] == images[..n];
    OneMoreImage(Flatten(shipments[..n]), images[..n], shipments[n], images[n]);
  }

  /** The shipment of one more image completes the one before it. */
  lemma OneMoreImage(ws: seq<Write>, images: seq<Bytes>, more: seq<Write>, image: Bytes)
    requires LastIsWhole(images)
    requires Published(Empty(), ws) == AllButLast(images)
    requires PutAll(Empty(), ws) == InProgress(images)
    requires WholeJpeg(image) && Shipment(more, image)
    ensures Published(Empty(), ws + more) == AllButLast(images + [image])
    ensures PutAll(Empty(), ws + more) == InProgress(images + [image])
  {
    hide Shipment, WholeJpeg, PutAll, Published, Flush;
    PutAllConcat(Empty(), ws, more);
    ShipmentBuffer(InProgress(images), more, image);
    FlushInProgress(images);
    assert (images + [image])[..|images|] == images;
  }

  lemma FlushInProgress(images: seq<Bytes>)
    requires LastIsWhole(images)
    ensures AllButLast(images) + FlushedList(InProgress(images)) == images
  {
    hide WholeJpeg, Flush;
    if images != [] {
      ImageFlushes(images[|images| - 1]);
    } else {
      NothingToFlush();
    }
  }

  lemma NothingToFlush()
    ensures Flush(Empty()) == None
  {
  }

  // -------------------------------------------------------- joining late

  predicate NoneBegins(ws: seq<Write>) {
    forall k :: 0 <= k < |ws| ==> !Begins(ws[k])
  }

  /** Before the first frame start, writes leave nothing and complete nothing. */
  lemma {:induction false} OrphansIgnored(ws: seq<Write>)
    requires NoneBegins(ws)
    ensures PutAll(Empty(), ws) == Empty() && Published(Empty(), ws) == []
  {
    if ws != [] {
      hide Begins;
      OrphansIgnored(ws[..|ws| - 1]);
    }
  }

  /** How many writes begin a frame. */
  function Starts(ws: seq<Write>): (n: nat)
    ensures n == 0 <==> NoneBegins(ws)
  {
    if ws == [] then 0
    else Starts(ws[..|ws| - 1]) + (if Begins(ws[|ws| - 1]) then 1 else 0)
  }

  lemma {:induction false} StartsConcat(a: seq<Write>, b: seq<Write>)
    ensures Starts(a + b) == Starts(a) + Starts(b)
  {
    hide Begins;
    if b == [] {
      assert a + b == a;
    } else {
      var n := |b| - 1;
      StartsConcat(a, b[..n]);
      assert (a + b)[..|a + b| - 1] == a + b[..n];
    }
  }

  /** A shipment begins one frame, with its first write. */
  lemma ShipmentStarts(ws: seq<Write>, image: Bytes, m: nat)
    requires WholeJpeg(image) && Shipment(ws, image) && 0 < m <= |ws|
    ensures Starts(ws[..m]) == 1 && NoneBegins(ws[m..])
  {
    var first, rest := ws[..1], ws[1..m];
    assert Begins(ws[0]) by {
      assert PieceOf(ws[0], image);
    }
    assert first[..0] == [];
    assert first + rest == ws[..m];
    StartsConcat(first, rest);
    assert NoneBegins(rest);
  }

  lemma {:induction false} ShipmentsStart(shipments: seq<seq<Write>>, images: seq<Bytes>)
    requires AllShipped(shipments, images)
    ensures Starts(Flatten(shipments)) == |images|
  {
    if images != [] {
      var n := |images| - 1;
      TheLastShipped(shipments, images);
      hide AllShipped, WholeJpeg, Shipment, Starts, Flatten;
      ShipmentsStart(shipments[..n], images[..n]);
      StartsConcat(Flatten(shipments[..n]), shipments[n]);
      NotEmpty(shipments[n], images[n]);
      ShipmentStarts(shipments[n], images[n], |shipments[n]|);
      assert shipments[n][..|shipments[n]|] == shipments[n];
    }
  }

  lemma NotEmpty(ws: seq<Write>, image: Bytes)
    requires Shipment(ws, image)
    ensures ws != []
  {
  }

  /** Joined after so many writes by a fresh reassembler, the images whose start was
      missed are lost whole, and of those after them all but the last come back. */
  predicate ComesBackLate(ws: seq<Write>, missed: nat, images: seq<Bytes>)
    requires missed <= |ws|
  {
    var lost := Starts(ws[..missed]);
    && lost <= |images|
    && Published(Empty(), ws[missed..]) == AllButLast(images[lost..])
    && PutAll(Empty(), ws[missed..]) == InProgress(images[lost..])
  }

  /** A stream of images joined at any write, between two images or inside one. */
  lemma {:induction false} LateImagesComeBack(shipments: seq<seq<Write>>, images: seq<Bytes>,
                                              missed: nat)
    requires AllShipped(shipments, images) && missed <= |Flatten(shipments)|
    ensures ComesBackLate(Flatten(shipments), missed, images)
  {
    if images == [] {
      return;
    }
    var n := |images| - 1;
    var earlier, last := Flatten(shipments[..n]), shipments[n];
    TheLastShipped(shipments, images);
    ShipmentsStart(shipments[..n], images[..n]);
    hide AllShipped, WholeJpeg, Shipment, Flatten, ComesBackLate, LastIsWhole, Starts;
    if missed <= |earlier| {
      LateImagesComeBack(shipments[..n], images[..n], missed);
      forall from: nat | from <= n
        ensures LastIsWhole(images[..n][from..])
      {
        AllAreWhole(shipments[..n], images[..n], from);
      }
      CutBeforeLast(earlier, missed, images[..n], last, images[n]);
    } else {
      CutInLast(earlier, missed, images[..n], last, images[n]);
    }
  }

  lemma TakeEarlier<T>(a: seq<T>, b: seq<T>, k: nat)
    requires k <= |a|
    ensures (a + b)[..k] == a[..k] && (a + b)[k..] == a[k..] + b
  {
  }

  lemma CutBeforeLast(earlier: seq<Write>, missed: nat, images: seq<Bytes>, last: seq<Write>,
                      image: Bytes)
    requires missed <= |earlier| && ComesBackLate(earlier, missed, images)
    requires forall from: nat :: from <= |images| ==> LastIsWhole(images[from..])
    requires WholeJpeg(image) && Shipment(last, image)
    ensures ComesBackLate(earlier + last, missed, images + [image])
  {
    hide WholeJpeg, Shipment, PutAll, Published, Starts, InProgress, AllButLast, LastIsWhole;
    var lost := Starts(earlier[..missed]);
    TakeEarlier(earlier, last, missed);
    TakeEarlier(images, [image], lost);
    OneMoreImage(earlier[missed..], images[lost..], last, image);
  }

  /** Joined in the middle of the last image, nothing comes back. */
  lemma CutInLast(earlier: seq<Write>, missed: nat, images: seq<Bytes>, last: seq<Write>,
                  image: Bytes)
    requires Starts(earlier) == |images| && |earlier| < missed <= |earlier + last|
    requires WholeJpeg(image) && Shipment(last, image)
    ensures ComesBackLate(earlier + last, missed, images + [image])
  {
    var m := missed - |earlier|;
    assert (earlier + last)[..missed] == earlier + last[..m];
    assert (earlier + last)[missed..] == last[m..];
    ShipmentStarts(last, image, m);
    hide WholeJpeg, Shipment, PutAll, Published, Starts, Begins;
    StartsConcat(earlier, last[..m]);
    OrphansIgnored(last[m..]);
    assert (images + [image])[|images| + 1..] == [];
  }

  // ------------------------------------------------------- byte for byte

  /** What a packet asks for: its bytes from 20 on, at the offset in bytes 12 to 15,
      highest first. */
  lemma WriteExactly(packet: Bytes)
    ensures Parse(packet)
            == if |packet| <= 20 then None
               else Some(Write(Four(packet[15], packet[14], packet[13], packet[12]),
                               packet[20..]))
  {
    if |packet| > 20 {
      NumberOf(packet[12..16]);
      hide FromBig, FromLittle;
    }
  }

  /** Whether a packet begins a frame. */
  predicate BeginsFrame(packet: Bytes) {
    && |packet| >= 22
    && packet[12] == 0 && packet[13] == 0 && packet[14] == 0 && packet[15] == 0
    && packet[20] == 0xff && packet[21] == 0xd8
  }

  lemma SoiExactly(data: Bytes)
    ensures StartsWithSoi(data) <==> |data| >= 2 && data[0] == 0xff && data[1] == 0xd8
  {
    assert StartsWithSoi(data) ==> SOI[0] == data[0 + 0] && SOI[1] == data[0 + 1];
  }

  lemma BeginsExactly(packet: Bytes)
    ensures BeginsFrame(packet)
            <==> Parse(packet).Some? && Begins(Parse(packet).value)
  {
    WriteExactly(packet);
    hide Parse, Begins, BeginsFrame;
    if |packet| > 20 {
      BeginsLike(packet, Parse(packet).value);
    } else {
      TooShort(packet);
    }
  }

  lemma TooShort(packet: Bytes)
    requires |packet| <= 20
    ensures !BeginsFrame(packet)
  {
  }

  lemma BeginsLike(packet: Bytes, w: Write)
    requires |packet| > 20 && w.data == packet[20..]
    requires w.offset == Four(packet[15], packet[14], packet[13], packet[12])
    ensures BeginsFrame(packet) <==> Begins(w)
  {
    hide Four, StartsWithSoi;
    OffsetIsZero(packet);
    PayloadStarts(packet);
  }

  lemma OffsetIsZero(packet: Bytes)
    requires |packet| > 20
    ensures Four(packet[15], packet[14], packet[13], packet[12]) == 0
            <==> packet[12] == 0 && packet[13] == 0 && packet[14] == 0 && packet[15] == 0
  {
    FourZeros(packet[15], packet[14], packet[13], packet[12]);
    hide Four;
  }

  lemma PayloadStarts(packet: Bytes)
    requires |packet| > 20
    ensures StartsWithSoi(packet[20..])
            <==> |packet| >= 22 && packet[20] == 0xff && packet[21] == 0xd8
  {
    SoiExactly(packet[20..]);
    hide StartsWithSoi;
    if |packet| >= 22 {
      assert packet[20..][0] == packet[20] && packet[20..][1] == packet[21];
    }
  }

  lemma FourZeros(b0: int, b1: int, b2: int, b3: int)
    requires b0 >= 0 && b1 >= 0 && b2 >= 0 && b3 >= 0
    ensures Four(b0, b1, b2, b3) == 0 <==> b0 == 0 && b1 == 0 && b2 == 0 && b3 == 0
  {
  }

  lemma EoiExactly(data: Bytes, at: int)
    ensures At(data, EOI, at)
            <==> 0 <= at <= |data| - 2 && data[at] == 0xff && data[at + 1] == 0xd9
  {
    assert At(data, EOI, at) ==> EOI[0] == data[at + 0] && EOI[1] == data[at + 1];
  }

  /** A whole image: four bytes to four mebibytes, from its start marker to its end
      marker. */
  lemma WholeExactly(image: Bytes)
    ensures WholeJpeg(image)
            <==> && 4 <= |image| <= 0x40_0000
                 && image[0] == 0xff && image[1] == 0xd8
                 && image[|image| - 2] == 0xff && image[|image| - 1] == 0xd9
  {
    SoiExactly(image);
    EoiExactly(image, |image| - 2);
    hide StartsWithSoi, At;
  }

  /** A write that begins a frame starts from nothing, any other goes into the frame
      in progress, if there is one; one that reaches past four mebibytes is dropped.
      The bytes between are zero. */
  lemma PutExactly(st: Reassembly, w: Write)
    ensures st.buffer.None? && !Begins(w) ==> Put(st, w) == st
    ensures st.buffer.Some? || Begins(w) ==>
              var base := if Begins(w) then [] else st.buffer.value;
              var reach := if Begins(w) then 0 else st.maxEnd;
              var after, end := Put(st, w), w.offset + |w.data|;
              && after.buffer.Some?
              && (end > 0x40_0000 ==> after == Reassembly(Some(base), reach))
              && (end <= 0x40_0000 ==>
                    && after.maxEnd == Max(reach, end)
                    && |after.buffer.value| == Max(|base|, end)
                    && forall i :: 0 <= i < |after.buffer.value| ==>
                         after.buffer.value[i]
                         == if w.offset <= i < end then w.data[i - w.offset]
                            else if i < |base| then base[i] else 0)
  {
    hide Begins;
    var base := if Begins(w) || st.buffer.None? then [] else st.buffer.value;
    forall i: nat | i < |Overlay(base, w)|
      ensures Overlay(base, w)[i]
              == if w.offset <= i < w.offset + |w.data| then w.data[i - w.offset]
                 else if i < |base| then base[i] else 0
    {
      OverlayAt(base, w, i);
    }
    hide Overlay;
  }

  /** The frame in progress is handed back from its start marker up to its last end
      marker, and only if it has both and at least four bytes. */
  lemma FlushedExactly(st: Reassembly, data: Bytes)
    requires st.buffer.Some? && data == st.buffer.value[..Min(st.maxEnd, |st.buffer.value|)]
    ensures Flush(st).Some? ==>
              && st.maxEnd >= 4 && |data| >= 2 && data[0] == 0xff && data[1] == 0xd8
              && Flush(st).value <= data && |Flush(st).value| >= 4
              && var end := |Flush(st).value| - 2;
                 && data[end] == 0xff && data[end + 1] == 0xd9
                 && forall k :: end < k < |data| - 1 ==> data[k] != 0xff || data[k + 1] != 0xd9
    ensures Flush(st).None? ==>
              || st.maxEnd < 4 || |data| < 2 || data[0] != 0xff || data[1] != 0xd8
              || forall k :: 2 <= k < |data| - 1 ==> data[k] != 0xff || data[k + 1] != 0xd9
  {
    SoiExactly(data);
    assert data == Slice(st.buffer.value, 0, st.maxEnd);
    var end := RFind(data, EOI, |data|);
    EoiExactly(data, end);
    forall k | end < k < |data| - 1
      ensures data[k] != 0xff || data[k + 1] != 0xd9
    {
      EoiExactly(data, k);
    }
    hide RFind, At, StartsWithSoi, Slice;
  }

  /** What a packet completes: the frame in progress, if it begins another. */
  lemma CompletedExactly(st: Reassembly, packet: Bytes)
    ensures Completed(st, packet) == if BeginsFrame(packet) then Flush(st) else None
  {
    BeginsExactly(packet);
    hide Flush, Begins, Parse;
  }

  // ------------------------------------------------ images cut into packets

  /** A packet's worth of an image: twelve bytes of header that say nothing about it,
      and where it lies. */
  datatype Piece = Piece(front: Bytes, offset: nat, length: nat)

  predicate Cuts(piece: Piece, image: Bytes) {
    |piece.front| == 12 && 0 < piece.length && piece.offset + piece.length <= |image| <= 0x40_0000
  }

  /** The packet of a piece: the offset, highest byte first, and the marker between
      the header and the bytes of the image. */
  function PacketOf(piece: Piece, image: Bytes): (packet: Bytes)
    requires Cuts(piece, image)
  {
    piece.front
    + [piece.offset / 0x100_0000, piece.offset / 0x1_0000 % 0x100, piece.offset / 0x100 % 0x100,
       piece.offset % 0x100]
    + [0x00, 0xff, 0x50, 0x3c]
    + image[piece.offset..piece.offset + piece.length]
  }

  /** The pieces of an image: the one at offset zero, of two bytes or more, once and
      first, then others in any order and any number of times, and none missing. */
  ghost predicate CutInto(image: Bytes, pieces: seq<Piece>) {
    && pieces != [] && pieces[0].offset == 0 && pieces[0].length >= 2
    && (forall k :: 0 <= k < |pieces| ==> Cuts(pieces[k], image))
    && (forall k :: 0 < k < |pieces| ==> pieces[k].offset > 0)
    && (forall i :: 0 <= i < |image| ==> CoveredBy(pieces, i))
  }

  ghost predicate CoveredBy(pieces: seq<Piece>, i: nat) {
    exists k :: 0 <= k < |pieces| && pieces[k].offset <= i < pieces[k].offset + pieces[k].length
  }

  function PacketsOf(pieces: seq<Piece>, image: Bytes): (packets: seq<Bytes>)
    requires forall k :: 0 <= k < |pieces| ==> Cuts(pieces[k], image)
    ensures |packets| == |pieces|
  {
    seq(|pieces|, k requires 0 <= k < |pieces| => PacketOf(pieces[k], image))
  }

  /** The packet of a piece asks for that piece at its place. */
  lemma PieceArrives(piece: Piece, image: Bytes)
    requires Cuts(piece, image)
    ensures Parse(PacketOf(piece, image))
            == Some(Write(piece.offset, image[piece.offset..piece.offset + piece.length]))
  {
    var packet := PacketOf(piece, image);
    var data := image[piece.offset..piece.offset + piece.length];
    WriteExactly(packet);
    hide Parse;
    assert packet[12] == piece.offset / 0x100_0000;
    assert packet[13] == piece.offset / 0x1_0000 % 0x100;
    assert packet[14] == piece.offset / 0x100 % 0x100 && packet[15] == piece.offset % 0x100;
    assert packet[20..] == data;
    Recomposed(piece.offset);
  }

  lemma Recomposed(v: nat)
    ensures Four(v % 0x100, v / 0x100 % 0x100, v / 0x1_0000 % 0x100, v / 0x100_0000) == v
  {
    assert v / 0x1_0000 == v / 0x100 / 0x100 && v / 0x100_0000 == v / 0x100 / 0x100 / 0x100;
  }

  /** For instance, bytes 00 00 05 78 are the offset 1400. */
  lemma OffsetOf1400(front: Bytes, data: Bytes)
    requires |front| == 12 && data != []
    ensures Parse(front + [0x00, 0x00, 0x05, 0x78] + [0x00, 0xff, 0x50, 0x3c] + data)
            == Some(Write(1400, data))
  {
    var packet := front + [0x00, 0x00, 0x05, 0x78] + [0x00, 0xff, 0x50, 0x3c] + data;
    WriteExactly(packet);
    assert packet[20..] == data;
  }
}
