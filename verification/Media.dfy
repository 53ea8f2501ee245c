/** Channel-1 media packets: finding them in a decrypted record. */
module Media {
  import opened ByteStrings

  const MEDIA_HEADER_LENGTH: nat := 20
  const MEDIA_OFFSET_FIELD: nat := 12
  const MAX_FRAME_SIZE: nat := 0x40_0000
  const MEDIA_MARKER: Bytes := [0x00, 0xff, 0x50, 0x3c]
  const MARKER_OFFSET: nat := 16
  const LENGTH_PREFIX_LENGTH: nat := 4

  /** A packet and where it starts in its record. */
  datatype Found = Found(start: nat, packet: Bytes)

  function EndOf(f: Found): nat { f.start + |f.packet| }

  function Packets(found: seq<Found>): (packets: seq<Bytes>)
    ensures |packets| == |found|
  {
    seq(|found|, i requires 0 <= i < |found| => found[i].packet)
  }

  /** The length a header's prefix announces, if it is one a packet can have
      and the packet stays inside the record. */
  function LengthAt(record: Bytes, header: int): (length: nat)
    ensures length == 0 || (MEDIA_HEADER_LENGTH <= length <= MAX_FRAME_SIZE
                            && LENGTH_PREFIX_LENGTH <= header && header + length <= |record|)
  {
    if header < LENGTH_PREFIX_LENGTH || header > |record| then 0
    else
      var length := FromLittle(record[header - LENGTH_PREFIX_LENGTH..header]);
      if MEDIA_HEADER_LENGTH <= length <= MAX_FRAME_SIZE && header + length <= |record|
      then length else 0
  }

  /** Whether a position holds a marker that heads a packet. */
  predicate Heads(record: Bytes, marker: nat) {
    At(record, MEDIA_MARKER, marker) && LengthAt(record, marker - MARKER_OFFSET) > 0
  }

  function FoundAt(record: Bytes, marker: nat): (f: Found)
    requires Heads(record, marker)
    ensures WellFormedFound(record, f) && f.start + MARKER_OFFSET == marker
    ensures marker + |MEDIA_MARKER| <= EndOf(f) <= |record|
  {
    var header := marker - MARKER_OFFSET;
    Found(header, record[header..header + LengthAt(record, header)])
  }

  /** The scan as a function of the cursor. */
  function Scan(record: Bytes, cursor: nat): seq<Found>
    decreases |record| - cursor
  {
    var marker := Find(record, MEDIA_MARKER, cursor);
    if marker < 0 then []
    else if Heads(record, marker) then
      [FoundAt(record, marker)] + Scan(record, EndOf(FoundAt(record, marker)))
    else Scan(record, marker + |MEDIA_MARKER|)
  }

  /** One turn of the scan. */
  lemma ScanStep(record: Bytes, cursor: nat)
    ensures var marker := Find(record, MEDIA_MARKER, cursor);
            Scan(record, cursor)
            == if marker < 0 then []
               else if Heads(record, marker) then
                 [FoundAt(record, marker)] + Scan(record, EndOf(FoundAt(record, marker)))
               else Scan(record, marker + |MEDIA_MARKER|)
  {
  }

  /** The loop's own test for a marker that heads a packet. */
  lemma HeadsWhen(record: Bytes, marker: nat)
    requires At(record, MEDIA_MARKER, marker)
    ensures marker + |MEDIA_MARKER| <= |record|
    ensures var header := marker - MARKER_OFFSET;
            if header >= LENGTH_PREFIX_LENGTH then
              var length := FromLittle(record[header - LENGTH_PREFIX_LENGTH..header]);
              if MEDIA_HEADER_LENGTH <= length <= MAX_FRAME_SIZE && header + length <= |record|
              then Heads(record, marker)
                   && FoundAt(record, marker) == Found(header, record[header..header + length])
              else !Heads(record, marker)
            else !Heads(record, marker)
  {
  }

  lemma PacketsAppend(found: seq<Found>, f: Found)
    ensures Packets(found + [f]) == Packets(found) + [f.packet]
  {
  }

  /** The packets of a record. */
  function Extract(record: Bytes): seq<Bytes> { Packets(Scan(record, 0)) }

  /** `extract_media_packets`: the loop that moves the cursor through the record
      and appends each packet it finds. */
  method ExtractMediaPackets(record: Bytes) returns (packets: seq<Bytes>)
    ensures packets == Extract(record)
  {
    hide Scan, Find, At, Heads, FoundAt, Packets, FromLittle, LengthAt, WellFormedFound;
    packets := [];
    var cursor := 0;
    ghost var found: seq<Found> := [];
    assert Packets(found) == packets;
    while true
      invariant Scan(record, 0) == found + Scan(record, cursor)
      invariant packets == Packets(found)
      decreases |record| - cursor
    {
      ScanStep(record, cursor);
      var markerPosition := Find(record, MEDIA_MARKER, cursor);
      if markerPosition < 0 {
        assert found + [] == found;
        return;
      }
      HeadsWhen(record, markerPosition);
      var header := markerPosition - MARKER_OFFSET;
      if header >= LENGTH_PREFIX_LENGTH {
        var length := FromLittle(record[header - LENGTH_PREFIX_LENGTH..header]);
        if MEDIA_HEADER_LENGTH <= length <= MAX_FRAME_SIZE && header + length <= |record| {
          ghost var f := Found(header, record[header..header + length]);
          packets := packets + [record[header..header + length]];
          cursor := header + length;
          PacketsAppend(found, f);
          ConcatAssoc(found, [f], Scan(record, cursor));
          found := found + [f];
          continue;
        }
      }
      cursor := markerPosition + |MEDIA_MARKER|;
    }
  }

  // ------------------------------------------------ what any record yields

  /** The packet is where it says, of a size a packet can have, with its marker
      in place and preceded by its own length. */
  predicate WellFormedFound(record: Bytes, f: Found) {
    && LENGTH_PREFIX_LENGTH <= f.start && EndOf(f) <= |record|
    && record[f.start..EndOf(f)] == f.packet
    && MEDIA_HEADER_LENGTH <= |f.packet| <= MAX_FRAME_SIZE
    && At(record, MEDIA_MARKER, f.start + MARKER_OFFSET)
    && FromLittle(record[f.start - LENGTH_PREFIX_LENGTH..f.start]) == |f.packet|
  }

  predicate AllFoundWell(record: Bytes, cursor: nat, found: seq<Found>) {
    forall i :: 0 <= i < |found| ==>
      WellFormedFound(record, found[i]) && cursor <= found[i].start + MARKER_OFFSET
  }

  /** One turn of the scan: it is over, it finds a packet and goes on at its
      end, or it goes on after a marker that heads nothing. */
  lemma ScanTurn(record: Bytes, cursor: nat) returns (head: Option<Found>, next: nat)
    ensures Scan(record, cursor) == [] ||
            (&& cursor < next <= |record|
             && (match head
                 case None => Scan(record, cursor) == Scan(record, next)
                 case Some(f) =>
                   && Scan(record, cursor) == [f] + Scan(record, next)
                   && next == EndOf(f) && WellFormedFound(record, f)
                   && cursor <= f.start + MARKER_OFFSET < next))
  {
    ScanStep(record, cursor);
    var marker := Find(record, MEDIA_MARKER, cursor);
    hide Scan, Find, LengthAt, WellFormedFound;
    head, next := None, 0;
    if marker >= 0 {
      if Heads(record, marker) {
        head := Some(FoundAt(record, marker));
        next := EndOf(FoundAt(record, marker));
      } else {
        next := marker + |MEDIA_MARKER|;
      }
    }
  }

  /** On every record whatever, every packet found is well formed. */
  lemma {:induction false} ScanWellFormed(record: Bytes, cursor: nat)
    ensures AllFoundWell(record, cursor, Scan(record, cursor))
    decreases |record| - cursor
  {
    hide Scan, WellFormedFound;
    var head, next := ScanTurn(record, cursor);
    if Scan(record, cursor) != [] {
      ScanWellFormed(record, next);
      if head.Some? {
        AllFoundPrepend(record, cursor, head.value, Scan(record, next));
      }
    }
  }

  lemma AllFoundPrepend(record: Bytes, cursor: nat, first: Found, rest: seq<Found>)
    requires WellFormedFound(record, first) && cursor <= first.start + MARKER_OFFSET
    requires AllFoundWell(record, EndOf(first), rest)
    ensures AllFoundWell(record, cursor, [first] + rest)
  {
    assert |first.packet| >= MEDIA_HEADER_LENGTH;
    hide WellFormedFound;
  }

  /** On every record whatever, a packet's marker lies past the end of every
      packet before it, so the ends strictly increase. */
  lemma {:induction false} ScanOrdered(record: Bytes, cursor: nat, i: nat, j: nat)
    requires i < j < |Scan(record, cursor)|
    ensures var found := Scan(record, cursor);
            && EndOf(found[i]) <= found[j].start + MARKER_OFFSET
            && EndOf(found[i]) < EndOf(found[j])
    decreases |record| - cursor
  {
    hide Scan;
    var head, next := ScanTurn(record, cursor);
    if head.Some? {
      ScanWellFormed(record, next);
      assert Scan(record, cursor)[j] == Scan(record, next)[j - 1];
      assert WellFormedFound(record, Scan(record, next)[j - 1]);
      if i > 0 {
        ScanOrdered(record, next, i - 1, j - 1);
      }
    } else {
      ScanOrdered(record, next, i, j);
    }
  }

  /** Occurrences of the marker never overlap. */
  lemma MarkersApart(record: Bytes, p: nat, q: nat)
    requires At(record, MEDIA_MARKER, p) && At(record, MEDIA_MARKER, q) && p < q
    ensures p + |MEDIA_MARKER| <= q
  {
    assert MEDIA_MARKER[0] == record[q + 0];
    assert MEDIA_MARKER[1] == record[p + 1];
    assert MEDIA_MARKER[2] == record[p + 2];
    assert MEDIA_MARKER[3] == record[p + 3];
  }

  /** No marker at or after `at` and before `marker` heads anything. */
  ghost predicate NoneHeads(record: Bytes, at: nat, marker: nat) {
    forall m :: at <= m < marker ==> !Heads(record, m)
  }

  /** The scan takes the least position from the cursor on whose marker heads a
      packet, and goes on at that packet's end. */
  lemma {:induction false} ScanTakesLeast(record: Bytes, cursor: nat, marker: nat)
    requires cursor <= marker && Heads(record, marker)
    requires NoneHeads(record, cursor, marker)
    ensures Scan(record, cursor)
            == [FoundAt(record, marker)] + Scan(record, EndOf(FoundAt(record, marker)))
    decreases |record| - cursor
  {
    hide Scan, Find, FoundAt, LengthAt;
    ScanStep(record, cursor);
    var first := Find(record, MEDIA_MARKER, cursor);
    FindLeast(record, cursor, marker);
    if first < marker {
      MarkersApart(record, first, marker);
      ScanTakesLeast(record, first + |MEDIA_MARKER|, marker);
    }
  }

  lemma FindLeast(record: Bytes, cursor: nat, marker: nat)
    requires cursor <= marker && At(record, MEDIA_MARKER, marker)
    ensures var first := Find(record, MEDIA_MARKER, cursor);
            cursor <= first <= marker && At(record, MEDIA_MARKER, first)
            && marker + |MEDIA_MARKER| <= |record|
  {
  }

  /** The scan finds nothing exactly when no marker from the cursor on heads a
      packet. */
  lemma {:induction false} ScanFindsNone(record: Bytes, cursor: nat)
    ensures Scan(record, cursor) == [] <==> forall m :: cursor <= m ==> !Heads(record, m)
    decreases |record| - cursor
  {
    hide Scan, Find, LengthAt, FoundAt;
    ScanStep(record, cursor);
    var first := Find(record, MEDIA_MARKER, cursor);
    if first >= 0 && !Heads(record, first) {
      var next := first + |MEDIA_MARKER|;
      ScanFindsNone(record, next);
      forall m | cursor <= m < next
        ensures !Heads(record, m)
      {
        if m > first && At(record, MEDIA_MARKER, m) {
          MarkersApart(record, first, m);
        }
      }
    }
  }

  // -------------------------------------------------------- round trip

  /** A packet behind its length prefix. */
  function Packed(packet: Bytes): (b: Bytes)
    ensures |b| == LENGTH_PREFIX_LENGTH + |packet|
  {
    Little(|packet|, LENGTH_PREFIX_LENGTH) + packet
  }

  function Pack(packets: seq<Bytes>): Bytes {
    if packets == [] then [] else Packed(packets[0]) + Pack(packets[1..])
  }

  /** A packet with its marker in place and of a size a packet can have. */
  predicate Sized(packet: Bytes) {
    && MEDIA_HEADER_LENGTH <= |packet| <= MAX_FRAME_SIZE
    && At(packet, MEDIA_MARKER, MARKER_OFFSET)
  }

  /** The length prefix and the header up to the marker. */
  function HeaderBytes(packet: Bytes): Bytes
    requires |packet| >= MARKER_OFFSET
  {
    Little(|packet|, LENGTH_PREFIX_LENGTH) + packet[..MARKER_OFFSET]
  }

  /** Nothing in the length prefix and the header fields reads as a marker. */
  predicate CleanHeader(packet: Bytes)
    requires |packet| >= MARKER_OFFSET
  {
    Find(HeaderBytes(packet), MEDIA_MARKER, 0) == -1
  }

  predicate WellFormedPacket(packet: Bytes) { Sized(packet) && CleanHeader(packet) }

  /** What should be found of packed packets from a position on. */
  function Placed(at: nat, packets: seq<Bytes>): (found: seq<Found>)
    ensures Packets(found) == packets
    decreases |packets|
  {
    if packets == [] then []
    else
      var first := Found(at + LENGTH_PREFIX_LENGTH, packets[0]);
      [first] + Placed(EndOf(first), packets[1..])
  }

  /** No packet is preceded, from its length prefix on, by a false marker that
      heads something. */
  ghost predicate Unmistakable(record: Bytes, at: nat, packets: seq<Bytes>)
    decreases |packets|
  {
    packets != [] ==>
      && NoneHeads(record, at, at + LENGTH_PREFIX_LENGTH + MARKER_OFFSET)
      && Unmistakable(record, at + LENGTH_PREFIX_LENGTH + |packets[0]|, packets[1..])
  }

  lemma PackedRest(record: Bytes, at: nat, packet: Bytes, rest: Bytes)
    requires at <= |record| && record[at..] == Packed(packet) + rest
    ensures at + LENGTH_PREFIX_LENGTH + |packet| <= |record|
    ensures record[at + LENGTH_PREFIX_LENGTH + |packet|..] == rest
  {
    SuffixSplit(record, at, Packed(packet), rest);
  }

  lemma PrefixedBody(record: Bytes, at: nat, prefix: Bytes, packet: Bytes, rest: Bytes)
    requires at <= |record| && record[at..] == prefix + packet + rest
    requires |prefix| == LENGTH_PREFIX_LENGTH
    ensures at + LENGTH_PREFIX_LENGTH + |packet| <= |record|
    ensures record[at..at + LENGTH_PREFIX_LENGTH] == prefix
    ensures record[at + LENGTH_PREFIX_LENGTH..at + LENGTH_PREFIX_LENGTH + |packet|] == packet
  {
    SuffixSplitThree(record, at, prefix, packet, rest);
  }

  lemma PackedBody(record: Bytes, at: nat, packet: Bytes, rest: Bytes)
    requires at <= |record| && record[at..] == Packed(packet) + rest
    ensures at + LENGTH_PREFIX_LENGTH + |packet| <= |record|
    ensures record[at..at + LENGTH_PREFIX_LENGTH] == Little(|packet|, LENGTH_PREFIX_LENGTH)
    ensures record[at + LENGTH_PREFIX_LENGTH..at + LENGTH_PREFIX_LENGTH + |packet|] == packet
  {
    PrefixedBody(record, at, Little(|packet|, LENGTH_PREFIX_LENGTH), packet, rest);
  }

  lemma PackedHeader(record: Bytes, at: nat, packet: Bytes, rest: Bytes)
    requires at <= |record| && record[at..] == Packed(packet) + rest
    requires |packet| >= MARKER_OFFSET
    ensures var marker := at + LENGTH_PREFIX_LENGTH + MARKER_OFFSET;
            marker <= |record| && record[at..marker] == HeaderBytes(packet)
  {
    PackedBody(record, at, packet, rest);
    hide Packed, Little;
    var start := at + LENGTH_PREFIX_LENGTH;
    SliceTake(record, start, start + |packet|, MARKER_OFFSET);
    SliceConcat(record, at, start, start + MARKER_OFFSET);
  }

  lemma TrueMarkerHeads(record: Bytes, at: nat, packet: Bytes, rest: Bytes)
    requires at <= |record| && record[at..] == Packed(packet) + rest && Sized(packet)
    ensures var marker := at + LENGTH_PREFIX_LENGTH + MARKER_OFFSET;
            && Heads(record, marker)
            && FoundAt(record, marker) == Found(at + LENGTH_PREFIX_LENGTH, packet)
  {
    PackedBody(record, at, packet, rest);
    var start := at + LENGTH_PREFIX_LENGTH;
    assert forall k :: 0 <= k < |packet| ==> record[start + k] == packet[k];
    PowersOf256();
    LittleRoundTrip(|packet|, 4);
  }

  /** A false marker that heads something is taken before the true one. */
  lemma ScanMistakes(record: Bytes, at: nat, marker: nat)
    requires !NoneHeads(record, at, marker)
    ensures Scan(record, at) != [] && Scan(record, at)[0].start + MARKER_OFFSET < marker
  {
    var least := LeastHead(record, at, marker);
    ScanTakesLeast(record, at, least);
  }

  lemma LeastHead(record: Bytes, at: nat, marker: nat) returns (least: nat)
    requires !NoneHeads(record, at, marker)
    ensures at <= least < marker && Heads(record, least) && NoneHeads(record, at, least)
  {
    least := at;
    while !Heads(record, least)
      invariant at <= least < marker && NoneHeads(record, at, least)
      decreases marker - least
    {
      least := least + 1;
    }
  }

  lemma SameHeadSameTail(head: Found, a: seq<Found>, b: seq<Found>)
    ensures [head] + a == [head] + b <==> a == b
  {
    assert ([head] + a)[1..] == a && ([head] + b)[1..] == b;
  }

  /** The scan finds packed packets where they are if and only if nothing
      before a marker of theirs can be mistaken for a packet; what the payloads
      contain is otherwise irrelevant. */
  lemma {:induction false} ScanExactlyPacked(record: Bytes, at: nat, packets: seq<Bytes>)
    requires at <= |record| && record[at..] == Pack(packets)
    requires forall i :: 0 <= i < |packets| ==> Sized(packets[i])
    ensures Scan(record, at) == Placed(at, packets) <==> Unmistakable(record, at, packets)
    decreases |packets|
  {
    if packets != [] {
      var marker := at + LENGTH_PREFIX_LENGTH + MARKER_OFFSET;
      var first := Found(at + LENGTH_PREFIX_LENGTH, packets[0]);
      var rest := Pack(packets[1..]);
      PackedRest(record, at, packets[0], rest);
      TrueMarkerHeads(record, at, packets[0], rest);
      assert Placed(at, packets) == [first] + Placed(EndOf(first), packets[1..]);
      assert Unmistakable(record, at, packets)
             <==> NoneHeads(record, at, marker)
                  && Unmistakable(record, EndOf(first), packets[1..]);
      hide Scan, Heads, FoundAt, At, Packed, Pack, Placed, Unmistakable, LengthAt, Little;
      ScanExactlyPacked(record, EndOf(first), packets[1..]);
      if NoneHeads(record, at, marker) {
        ScanTakesLeast(record, at, marker);
        SameHeadSameTail(first, Scan(record, EndOf(first)), Placed(EndOf(first), packets[1..]));
      } else {
        ScanMistakes(record, at, marker);
      }
    }
  }

  /** A marker-free prefix and header cannot be mistaken. */
  lemma CleanHeaderHeadsNothing(record: Bytes, at: nat, packet: Bytes, rest: Bytes, m: nat)
    requires at <= |record| && record[at..] == Packed(packet) + rest && WellFormedPacket(packet)
    requires at <= m < at + LENGTH_PREFIX_LENGTH + MARKER_OFFSET
    ensures !At(record, MEDIA_MARKER, m)
  {
    var marker := at + LENGTH_PREFIX_LENGTH + MARKER_OFFSET;
    TrueMarkerHeads(record, at, packet, rest);
    PackedHeader(record, at, packet, rest);
    if At(record, MEDIA_MARKER, m) {
      MarkersApart(record, m, marker);
      assert At(HeaderBytes(packet), MEDIA_MARKER, m - at);
    }
  }

  lemma {:induction false} CleanPacketsUnmistakable(record: Bytes, at: nat, packets: seq<Bytes>)
    requires at <= |record| && record[at..] == Pack(packets)
    requires forall i :: 0 <= i < |packets| ==> WellFormedPacket(packets[i])
    ensures Unmistakable(record, at, packets)
    decreases |packets|
  {
    if packets != [] {
      var rest := Pack(packets[1..]);
      PackedRest(record, at, packets[0], rest);
      forall m | at <= m < at + LENGTH_PREFIX_LENGTH + MARKER_OFFSET
        ensures !Heads(record, m)
      {
        CleanHeaderHeadsNothing(record, at, packets[0], rest, m);
      }
      hide Heads, Pack, Packed, WellFormedPacket, LengthAt, At;
      CleanPacketsUnmistakable(record, at + LENGTH_PREFIX_LENGTH + |packets[0]|, packets[1..]);
    }
  }

  /** Extraction inverts packing where nothing can be mistaken for a packet. */
  lemma ExtractUnmistakable(packets: seq<Bytes>)
    requires forall i :: 0 <= i < |packets| ==> Sized(packets[i])
    requires Unmistakable(Pack(packets), 0, packets)
    ensures Extract(Pack(packets)) == packets
  {
    var record := Pack(packets);
    assert record[0..] == record;
    ScanExactlyPacked(record, 0, packets);
  }

  /** Extraction inverts packing of marker-free headers, whatever the payloads
      contain. */
  lemma ExtractPack(packets: seq<Bytes>)
    requires forall i :: 0 <= i < |packets| ==> WellFormedPacket(packets[i])
    ensures Unmistakable(Pack(packets), 0, packets)
    ensures Extract(Pack(packets)) == packets
  {
    var record := Pack(packets);
    assert record[0..] == record;
    CleanPacketsUnmistakable(record, 0, packets);
    ExtractUnmistakable(packets);
  }

  /** A packet whose payload starts with the number twenty, little end first. */
  const ENDS_IN_LENGTH: Bytes :=
    [0, 0, 0, 0, 0, 0, 0, 1, 0, 0, 0, 10, 0, 0, 0, 0, 0x00, 0xff, 0x50, 0x3c,
     20, 0, 0, 0, 1, 2, 3, 4, 5, 6, 7, 8]

  /** A packet without payload whose frame id reads as a marker. */
  const MARKED_ID: Bytes :=
    [0, 0, 0, 0, 0x00, 0xff, 0x50, 0x3c, 0, 0, 0, 10, 0, 0, 0, 0, 0x00, 0xff, 0x50, 0x3c]

  lemma MistakenBytes(record: Bytes)
    requires record == Pack([ENDS_IN_LENGTH, MARKED_ID])
    ensures record == [32, 0, 0, 0] + ENDS_IN_LENGTH + [20, 0, 0, 0] + MARKED_ID
  {
    var packets := [ENDS_IN_LENGTH, MARKED_ID];
    var last := packets[1..];
    assert last == [MARKED_ID] && Pack(last[1..]) == [];
    LittleSmall(32);
    LittleSmall(20);
  }

  lemma LittleSmall(v: byte)
    ensures Little(v, 4) == [v, 0, 0, 0] && FromLittle([v, 0, 0, 0]) == v
  {
    assert Little(v / 256, 3) == [0] + Little(0, 2) && Little(0, 2) == [0] + Little(0, 1);
    assert Little(0, 1) == [0] + Little(0, 0);
    var zeros: Bytes := [0, 0, 0];
    assert zeros[1..][1..][1..] == [] && FromLittle(zeros) == 0;
    var b := [v] + zeros;
    assert b[1..] == zeros && b == [v, 0, 0, 0];
  }

  lemma HeadsBecause(record: Bytes, marker: nat, length: byte)
    requires marker >= LENGTH_PREFIX_LENGTH + MARKER_OFFSET && At(record, MEDIA_MARKER, marker)
    requires record[marker - 20..marker - 16] == [length, 0, 0, 0]
    requires MEDIA_HEADER_LENGTH <= length && marker - MARKER_OFFSET + length <= |record|
    ensures Heads(record, marker)
    ensures FoundAt(record, marker)
            == Found(marker - MARKER_OFFSET,
                     record[marker - MARKER_OFFSET..marker - MARKER_OFFSET + length])
  {
    LittleSmall(length);
  }

  lemma MarkerByte(record: Bytes, m: nat)
    requires At(record, MEDIA_MARKER, m)
    ensures m + 4 <= |record| && record[m] == 0x00 && record[m + 1] == 0xff
    ensures record[m + 2] == 0x50 && record[m + 3] == 0x3c
  {
    assert MEDIA_MARKER[0] == record[m + 0] && MEDIA_MARKER[1] == record[m + 1];
    assert MEDIA_MARKER[2] == record[m + 2] && MEDIA_MARKER[3] == record[m + 3];
  }

  lemma NoMarkerBetween(record: Bytes, from: nat, to: nat)
    requires from <= to < |record|
    requires forall i :: from < i <= to ==> record[i] != 0xff
    ensures NoneHeads(record, from, to)
  {
    hide LengthAt;
    forall m | from <= m < to
      ensures !Heads(record, m)
    {
      if At(record, MEDIA_MARKER, m) {
        MarkerByte(record, m);
      }
    }
  }

  /** The two packets where they lie in the record. */
  predicate Laid(record: Bytes) {
    && |record| == 60
    && (forall i :: 0 <= i < 4 ==> record[i] == [32, 0, 0, 0][i])
    && (forall i :: 4 <= i < 36 ==> record[i] == ENDS_IN_LENGTH[i - 4])
    && (forall i :: 36 <= i < 40 ==> record[i] == [20, 0, 0, 0][i - 36])
    && (forall i :: 40 <= i < 60 ==> record[i] == MARKED_ID[i - 40])
  }

  lemma MistakenIsLaid(prefix: Bytes, first: Bytes, second: Bytes, last: Bytes)
    requires prefix == [32, 0, 0, 0] && second == [20, 0, 0, 0]
    requires first == ENDS_IN_LENGTH && last == MARKED_ID
    ensures Laid(prefix + first + second + last)
  {
    assert |first| == 32 && |last| == 20;
  }

  /** Where the markers of the mistaken record are. */
  lemma MistakenMarkers(record: Bytes)
    requires Laid(record)
    ensures At(record, MEDIA_MARKER, 20) && At(record, MEDIA_MARKER, 44)
    ensures record[0..4] == [32, 0, 0, 0] && record[24..28] == [20, 0, 0, 0]
    ensures record[28] == 1 && record[40] == 0
  {
    assert forall k :: 0 <= k < 4 ==>
        ENDS_IN_LENGTH[16 + k] == MARKED_ID[4 + k] == MEDIA_MARKER[k];
    assert forall k :: 0 <= k < 4 ==> ENDS_IN_LENGTH[20 + k] == [20, 0, 0, 0][k];
  }

  lemma MistakenGaps(record: Bytes)
    requires Laid(record)
    ensures NoneHeads(record, 0, 20) && NoneHeads(record, 36, 44)
  {
    hide NoneHeads;
    assert forall k :: 0 <= k < 17 ==> ENDS_IN_LENGTH[k] != 0xff;
    assert forall k :: 0 <= k < 5 ==> MARKED_ID[k] != 0xff;
    NoMarkerBetween(record, 0, 20);
    NoMarkerBetween(record, 36, 44);
  }

  lemma MistakenSized()
    ensures Sized(ENDS_IN_LENGTH) && Sized(MARKED_ID) && MARKED_ID[0] == 0
  {
  }

  /** The second packet found is headed by the least marker after the first. */
  lemma SecondFound(record: Bytes, first: nat, second: nat)
    requires Heads(record, first) && NoneHeads(record, 0, first)
    requires EndOf(FoundAt(record, first)) <= second && Heads(record, second)
    requires NoneHeads(record, EndOf(FoundAt(record, first)), second)
    ensures |Extract(record)| >= 2 && Extract(record)[1] == FoundAt(record, second).packet
  {
    hide Scan, Heads, FoundAt, NoneHeads;
    ScanTakesLeast(record, 0, first);
    ScanTakesLeast(record, EndOf(FoundAt(record, first)), second);
  }

  /** It does happen: these two packets are of a size a packet can have, with their
      markers in place, and the record of the two is not cut back into them, as the
      frame id of the second is taken for the marker of one that overlaps both. */
  lemma PackingCanBeMistaken()
    ensures Sized(ENDS_IN_LENGTH) && Sized(MARKED_ID)
    ensures Heads(Pack([ENDS_IN_LENGTH, MARKED_ID]), 44)
    ensures !Unmistakable(Pack([ENDS_IN_LENGTH, MARKED_ID]), 0, [ENDS_IN_LENGTH, MARKED_ID])
    ensures Extract(Pack([ENDS_IN_LENGTH, MARKED_ID])) != [ENDS_IN_LENGTH, MARKED_ID]
  {
    var packets := [ENDS_IN_LENGTH, MARKED_ID];
    MistakenBytes(Pack(packets));
    MistakenIsLaid([32, 0, 0, 0], ENDS_IN_LENGTH, [20, 0, 0, 0], MARKED_ID);
    MistakenSized();
    hide Pack, Heads, Unmistakable, Sized, Laid, Extract;
    MistakenScan(Pack(packets));
    MistakenIfWrong(packets);
  }

  lemma MistakenScan(record: Bytes)
    requires Laid(record)
    ensures Heads(record, 44)
    ensures |Extract(record)| >= 2 && Extract(record)[1] != MARKED_ID
  {
    MistakenMarkers(record);
    MistakenGaps(record);
    hide Scan, Heads, FoundAt, At, NoneHeads;
    HeadsBecause(record, 20, 32);
    HeadsBecause(record, 44, 20);
    SecondFound(record, 20, 44);
    assert Extract(record)[1][0] == record[28];
  }

  lemma MistakenIfWrong(packets: seq<Bytes>)
    requires Extract(Pack(packets)) != packets
    requires forall i :: 0 <= i < |packets| ==> Sized(packets[i])
    ensures !Unmistakable(Pack(packets), 0, packets)
  {
    hide Pack, Extract, Sized, Unmistakable;
    if Unmistakable(Pack(packets), 0, packets) {
      ExtractUnmistakable(packets);
    }
  }

  /** Which markers head a packet, and which packet: one byte order, one distance and
      one range of lengths. */
  lemma HeadsExactly(record: Bytes, m: nat)
    ensures Heads(record, m)
            <==> && 20 <= m && m + 4 <= |record|
                 && record[m] == 0x00 && record[m + 1] == 0xff
                 && record[m + 2] == 0x50 && record[m + 3] == 0x3c
                 && var length := Four(record[m - 20], record[m - 19], record[m - 18],
                                       record[m - 17]);
                    20 <= length <= 0x40_0000 && m - 16 + length <= |record|
    ensures Heads(record, m) ==>
              var length := Four(record[m - 20], record[m - 19], record[m - 18], record[m - 17]);
              FoundAt(record, m) == Found(m - 16, record[m - 16..m - 16 + length])
  {
    if 20 <= m && m <= |record| {
      NumberOf(record[m - 20..m - 16]);
    }
    if 20 <= m && m + 4 <= |record| {
      MarkerExactly(record, m);
    }
    hide FromLittle, FromBig;
  }

  lemma MarkerExactly(record: Bytes, m: nat)
    requires m + 4 <= |record|
    ensures At(record, MEDIA_MARKER, m)
            <==> && record[m] == 0x00 && record[m + 1] == 0xff
                 && record[m + 2] == 0x50 && record[m + 3] == 0x3c
  {
    if At(record, MEDIA_MARKER, m) {
      MarkerByte(record, m);
    }
  }
}
