/** Exactly when cutting a record gives back the packets it was packed from, as bytes
    and wherever they were found. */
module MediaExactness {
  import opened ByteStrings
  import opened Media

  /** A packet that continues itself at a distance. */
  predicate Repeats(packet: Bytes, d: nat) {
    d <= |packet| && packet[d..] == packet[..|packet| - d]
  }

  /** The distances at which a false marker can stand in front of the true one: it
      overlaps neither that nor the small number before the packet. */
  const NEAREST: nat := 4
  const FARTHEST: nat := 17

  predicate NeverRepeats(packet: Bytes) {
    forall d :: NEAREST <= d <= FARTHEST ==> !Repeats(packet, d)
  }

  lemma SmallPrefix(b: Bytes)
    requires |b| == LENGTH_PREFIX_LENGTH && FromLittle(b) <= MAX_FRAME_SIZE
    ensures b[3] == 0 && b[2] <= 0x40
  {
    var b1, b2, b3 := b[1..], b[1..][1..], b[1..][1..][1..];
    assert FromLittle(b3) == b[3] + 256 * FromLittle(b3[1..]) && b3[1..] == [];
    assert FromLittle(b2) == b[2] + 256 * FromLittle(b3);
    assert FromLittle(b1) == b[1] + 256 * FromLittle(b2);
    assert FromLittle(b) == b[0] + 256 * FromLittle(b1);
  }

  /** How far in front of a packet's own marker a false one can stand. */
  lemma FalseMarkerReach(record: Bytes, at: nat, packet: Bytes, rest: Bytes, m: nat)
    requires at <= |record| && record[at..] == Packed(packet) + rest && Sized(packet)
    requires at <= m < at + LENGTH_PREFIX_LENGTH + MARKER_OFFSET && At(record, MEDIA_MARKER, m)
    ensures NEAREST <= at + LENGTH_PREFIX_LENGTH + MARKER_OFFSET - m <= FARTHEST
  {
    TrueMarkerHeads(record, at, packet, rest);
    PackedBody(record, at, packet, rest);
    var prefix := record[at..at + LENGTH_PREFIX_LENGTH];
    PowersOf256();
    LittleRoundTrip(|packet|, LENGTH_PREFIX_LENGTH);
    SmallPrefix(prefix);
    MarkersApart(record, m, at + LENGTH_PREFIX_LENGTH + MARKER_OFFSET);
    MarkerByte(record, m);
    hide Packed, Little, FromLittle, Heads, FoundAt, At;
    assert record[at + 3] == prefix[3] && record[at + 2] == prefix[2];
  }

  /** What a false marker heads is not the packet, unless that repeats itself. */
  lemma FalseFoundDiffers(record: Bytes, at: nat, packet: Bytes, rest: Bytes, m: nat)
    requires at <= |record| && record[at..] == Packed(packet) + rest && Sized(packet)
    requires at <= m < at + LENGTH_PREFIX_LENGTH + MARKER_OFFSET && Heads(record, m)
    requires NeverRepeats(packet)
    ensures FoundAt(record, m).packet != packet
  {
    FalseMarkerReach(record, at, packet, rest, m);
    PackedBody(record, at, packet, rest);
    FoundPlace(record, m);
    hide Packed, Heads, FoundAt, At, LengthAt, WellFormedFound, Repeats;
    var body := at + LENGTH_PREFIX_LENGTH;
    if FoundAt(record, m).packet == packet {
      SameAtTwoPlaces(record, body, body + MARKER_OFFSET - m, packet);
    }
  }

  lemma FoundPlace(record: Bytes, m: nat)
    requires Heads(record, m)
    ensures var f := FoundAt(record, m);
            && f.start + MARKER_OFFSET == m && EndOf(f) <= |record|
            && record[f.start..EndOf(f)] == f.packet
  {
    hide LengthAt;
  }

  lemma SameAtTwoPlaces(record: Bytes, body: nat, d: nat, packet: Bytes)
    requires d <= body && d <= |packet| && body + |packet| <= |record|
    requires record[body..body + |packet|] == packet
    requires record[body - d..body - d + |packet|] == packet
    ensures Repeats(packet, d)
  {
    forall k | 0 <= k < |packet| - d
      ensures packet[d + k] == packet[k]
    {
      assert packet[d + k] == record[body - d..body - d + |packet|][d + k] == record[body + k];
      assert packet[k] == record[body..body + |packet|][k];
    }
  }

  lemma PacketsOf(head: Found, tail: seq<Found>)
    ensures Packets([head] + tail) == [head.packet] + Packets(tail)
  {
  }

  /** From a position on, what is found are the packed packets if and only if none of
      them can be mistaken, for packets that do not repeat themselves. */
  lemma {:induction false} FoundExactly(record: Bytes, at: nat, packets: seq<Bytes>)
    requires at <= |record| && record[at..] == Pack(packets)
    requires forall i :: 0 <= i < |packets| ==> Sized(packets[i]) && NeverRepeats(packets[i])
    ensures Packets(Scan(record, at)) == packets <==> Unmistakable(record, at, packets)
    decreases |packets|
  {
    if packets == [] {
      ScanExactlyPacked(record, at, packets);
      return;
    }
    var marker := at + LENGTH_PREFIX_LENGTH + MARKER_OFFSET;
    var first := Found(at + LENGTH_PREFIX_LENGTH, packets[0]);
    var rest := Pack(packets[1..]);
    PackedRest(record, at, packets[0], rest);
    TrueMarkerHeads(record, at, packets[0], rest);
    assert Unmistakable(record, at, packets)
           <==> NoneHeads(record, at, marker) && Unmistakable(record, EndOf(first), packets[1..]);
    hide Scan, FoundAt, At, Packed, Placed, Unmistakable, LengthAt, Little;
    FoundExactly(record, EndOf(first), packets[1..]);
    assert packets == [packets[0]] + packets[1..];
    if NoneHeads(record, at, marker) {
      ScanTakesLeast(record, at, marker);
      PacketsOf(first, Scan(record, EndOf(first)));
    } else {
      var least := LeastHead(record, at, marker);
      ScanTakesLeast(record, at, least);
      PacketsOf(FoundAt(record, least), Scan(record, EndOf(FoundAt(record, least))));
      FalseFoundDiffers(record, at, packets[0], rest, least);
    }
  }

  /** Extraction gives back packed packets if and only if none can be mistaken, for
      packets that do not repeat themselves at a distance of 4 to 17; what their
      payloads contain is otherwise irrelevant. */
  lemma ExtractExactly(packets: seq<Bytes>)
    requires forall i :: 0 <= i < |packets| ==> Sized(packets[i]) && NeverRepeats(packets[i])
    ensures Extract(Pack(packets)) == packets
            <==> Unmistakable(Pack(packets), 0, packets)
  {
    var record := Pack(packets);
    assert record[0..] == record;
    hide Pack, Scan, Packets, Unmistakable, NeverRepeats, Sized;
    FoundExactly(record, 0, packets);
  }

  // ------------------------------------- why repeating packets are left out

  /** A packet whose last bytes read as a marker, with a thirty-two before them. */
  const ENDS_IN_MARKER: Bytes :=
    [0, 0, 0, 0, 0, 0, 0, 0, 0, 0, 0, 0, 0, 0, 0, 0, 0x00, 0xff, 0x50, 0x3c,
     1, 1, 1, 1, 32, 0, 0, 0, 0x00, 0xff, 0x50, 0x3c]

  /** A packet of thirty-two bytes that is its marker and its length over and over. */
  const OVER_AND_OVER: Bytes :=
    [0x00, 0xff, 0x50, 0x3c, 32, 0, 0, 0, 0x00, 0xff, 0x50, 0x3c, 32, 0, 0, 0,
     0x00, 0xff, 0x50, 0x3c, 32, 0, 0, 0, 0x00, 0xff, 0x50, 0x3c, 32, 0, 0, 0]

  /** The two packets where they lie in the record. */
  predicate Arranged(record: Bytes) {
    && |record| == 72
    && (forall i :: 0 <= i < 4 ==> record[i] == [32, 0, 0, 0][i])
    && (forall i :: 4 <= i < 36 ==> record[i] == ENDS_IN_MARKER[i - 4])
    && (forall i :: 36 <= i < 40 ==> record[i] == [32, 0, 0, 0][i - 36])
    && (forall i :: 40 <= i < 72 ==> record[i] == OVER_AND_OVER[i - 40])
  }

  lemma PackedAreLaid()
    ensures Arranged(Pack([ENDS_IN_MARKER, OVER_AND_OVER]))
  {
    var packets := [ENDS_IN_MARKER, OVER_AND_OVER];
    var last := packets[1..];
    assert |ENDS_IN_MARKER| == 32 && |OVER_AND_OVER| == 32;
    assert last == [OVER_AND_OVER] && Pack(last[1..]) == [];
    LittleSmall(32);
    assert Pack(last) == [32, 0, 0, 0] + OVER_AND_OVER;
    LaidOut([32, 0, 0, 0], ENDS_IN_MARKER, Pack(last));
  }

  lemma LaidOut(prefix: Bytes, first: Bytes, second: Bytes)
    requires prefix == [32, 0, 0, 0] && first == ENDS_IN_MARKER
    requires second == prefix + OVER_AND_OVER
    ensures Arranged(prefix + first + second)
  {
    assert |first| == 32 && |second| == 36;
  }

  lemma LaidMarkers(record: Bytes)
    requires Arranged(record)
    ensures At(record, MEDIA_MARKER, 20) && At(record, MEDIA_MARKER, 48)
    ensures record[0..4] == [32, 0, 0, 0] && record[28..32] == [32, 0, 0, 0]
    ensures record[44..48] == [32, 0, 0, 0] && record[23] == 0x3c
  {
    assert forall k :: 0 <= k < 4 ==>
        ENDS_IN_MARKER[16 + k] == OVER_AND_OVER[8 + k] == MEDIA_MARKER[k];
    assert forall k :: 0 <= k < 4 ==>
        ENDS_IN_MARKER[24 + k] == OVER_AND_OVER[4 + k] == [32, 0, 0, 0][k];
  }

  /** The second byte of every marker there is. */
  lemma LaidSecondBytes(record: Bytes)
    requires Arranged(record)
    ensures forall m :: 0 <= m < 72 && record[m] == 0xff ==> m in {21, 33, 41, 49, 57, 65}
  {
    assert forall k :: 0 <= k < 32 && ENDS_IN_MARKER[k] == 0xff ==> k in {17, 29};
    assert forall k :: 0 <= k < 32 && OVER_AND_OVER[k] == 0xff ==> k in {1, 9, 17, 25};
  }

  lemma LaidGaps(record: Bytes)
    requires Arranged(record)
    ensures NoneHeads(record, 0, 20) && NoneHeads(record, 36, 48)
    ensures forall m :: 64 <= m ==> !Heads(record, m)
  {
    LaidMarkers(record);
    LaidSecondBytes(record);
    LittleSmall(32);
    hide At, Arranged, FromLittle;
    forall m: nat | m < 20 || 36 <= m < 48 || 64 <= m
      ensures !Heads(record, m)
    {
      if At(record, MEDIA_MARKER, m) {
        MarkerByte(record, m);
        if m == 40 && FromLittle(record[20..24]) <= MAX_FRAME_SIZE {
          SmallPrefix(record[20..24]);
        }
      }
    }
  }

  lemma LaidScan(record: Bytes)
    requires Arranged(record)
    ensures Heads(record, 48)
    ensures Scan(record, 0) == [Found(4, record[4..36]), Found(32, record[32..64])]
  {
    LaidMarkers(record);
    LaidGaps(record);
    hide Arranged, Scan, Heads, FoundAt, At, NoneHeads;
    HeadsBecause(record, 20, 32);
    HeadsBecause(record, 48, 32);
    ScanTakesLeast(record, 0, 20);
    ScanTakesLeast(record, 36, 48);
    ScanFindsNone(record, 64);
  }

  /** These two packets are given back although the second is found in the wrong
      place: the bytes before it continue it, at a distance of eight. */
  lemma RepeatingIsExtracted()
    ensures Sized(ENDS_IN_MARKER) && Sized(OVER_AND_OVER) && Repeats(OVER_AND_OVER, 8)
    ensures !Unmistakable(Pack([ENDS_IN_MARKER, OVER_AND_OVER]), 0,
                          [ENDS_IN_MARKER, OVER_AND_OVER])
    ensures Extract(Pack([ENDS_IN_MARKER, OVER_AND_OVER])) == [ENDS_IN_MARKER, OVER_AND_OVER]
  {
    var packets := [ENDS_IN_MARKER, OVER_AND_OVER];
    PackedAreLaid();
    RepeatingPackets();
    hide Pack, Scan, Sized, Repeats, Heads;
    var record := Pack(packets);
    LaidScan(record);
    LaidPackets(record);
    hide Arranged;
    SecondMistaken(record, packets);
  }

  lemma RepeatingPackets()
    ensures Sized(ENDS_IN_MARKER) && Sized(OVER_AND_OVER) && Repeats(OVER_AND_OVER, 8)
    ensures |ENDS_IN_MARKER| == 32
  {
  }

  lemma LaidPackets(record: Bytes)
    requires Arranged(record)
    ensures record[4..36] == ENDS_IN_MARKER && record[32..64] == OVER_AND_OVER
  {
    assert forall k :: 0 <= k < 4 ==>
        ENDS_IN_MARKER[28 + k] == OVER_AND_OVER[k] && [32, 0, 0, 0][k] == OVER_AND_OVER[4 + k];
    assert forall k :: 0 <= k < 24 ==> OVER_AND_OVER[k] == OVER_AND_OVER[8 + k];
  }

  lemma SecondMistaken(record: Bytes, packets: seq<Bytes>)
    requires |packets| == 2 && |packets[0]| == 32 && Heads(record, 48)
    ensures !Unmistakable(record, 0, packets)
  {
    hide Heads;
    assert !NoneHeads(record, 36, 56);
    assert Unmistakable(record, 0, packets) ==> Unmistakable(record, 36, packets[1..]);
  }
}
