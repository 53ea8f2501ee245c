/** The 24-byte little-endian KCP header and its codec. */
module KcpSegment {
  import opened ByteStrings

  const KCP_HEADER_LENGTH: nat := 24

  const CMD_PUSH: nat := 0x51
  const CMD_ACK: nat := 0x52
  const CMD_WINDOW_ASK: nat := 0x53
  const CMD_WINDOW_TELL: nat := 0x54

  /** A segment with its payload split off. The counters are unbounded here, as
      they are in Python; `OnWire` is what the header makes of them. */
  datatype Segment = Segment(
    conversation: nat,
    command: nat,
    fragment: nat,
    window: nat,
    timestamp: nat,
    sequence: nat,
    unacknowledged: nat,
    data: Bytes)

  /** The segment the other end parses: every field cut to its header width. */
  function OnWire(s: Segment): Segment {
    s.(conversation := s.conversation % TWO_32,
       window := s.window % TWO_16,
       timestamp := s.timestamp % TWO_32,
       sequence := s.sequence % TWO_32,
       unacknowledged := s.unacknowledged % TWO_32)
  }

  /** Whether the header can carry the segment: command and fragment go into
      one byte each, and the payload length into four. */
  predicate Buildable(s: Segment) {
    s.command < 256 && s.fragment < 256 && |s.data| < TWO_32
  }

  /** The payload length announced by a header. */
  function Announced(raw: Bytes): nat
    requires |raw| >= KCP_HEADER_LENGTH
  {
    FromLittle(raw[20..24])
  }

  function ParseSegment(raw: Bytes): Option<Segment> {
    if |raw| < KCP_HEADER_LENGTH then None
    else if KCP_HEADER_LENGTH + Announced(raw) > |raw| then None
    else Some(Segment(
      FromLittle(raw[0..4]),
      raw[4],
      raw[5],
      FromLittle(raw[6..8]),
      FromLittle(raw[8..12]),
      FromLittle(raw[12..16]),
      FromLittle(raw[16..20]),
      raw[KCP_HEADER_LENGTH..KCP_HEADER_LENGTH + Announced(raw)]))
  }

  /** The header fields side by side. */
  function Layout(conversation: Bytes, command: byte, fragment: byte, window: Bytes,
                  timestamp: Bytes, sequence: Bytes, unacknowledged: Bytes, length: Bytes): Bytes {
    conversation + [command, fragment] + window + timestamp + sequence + unacknowledged + length
  }

  function Header(s: Segment): (h: Bytes)
    requires Buildable(s)
    ensures |h| == KCP_HEADER_LENGTH
  {
    Layout(Little(s.conversation % TWO_32, 4), s.command, s.fragment,
           Little(s.window % TWO_16, 2), Little(s.timestamp % TWO_32, 4),
           Little(s.sequence % TWO_32, 4), Little(s.unacknowledged % TWO_32, 4),
           Little(|s.data|, 4))
  }

  /** None is the exception Python raises for a field that does not fit. */
  function BuildSegment(s: Segment): Option<Bytes> {
    if Buildable(s) then Some(Header(s) + s.data) else None
  }

  lemma LayoutFields(c: Bytes, command: byte, fragment: byte, w: Bytes, t: Bytes, s: Bytes,
                     u: Bytes, l: Bytes)
    requires |c| == |t| == |s| == |u| == |l| == 4 && |w| == 2
    ensures var h := Layout(c, command, fragment, w, t, s, u, l);
            && |h| == KCP_HEADER_LENGTH
            && h[0..4] == c && h[4] == command && h[5] == fragment && h[6..8] == w
            && h[8..12] == t && h[12..16] == s && h[16..20] == u && h[20..24] == l
  {
  }

  lemma HeaderFields(s: Segment)
    requires Buildable(s)
    ensures var h := Header(s);
            && FromLittle(h[0..4]) == s.conversation % TWO_32
            && h[4] == s.command && h[5] == s.fragment
            && FromLittle(h[6..8]) == s.window % TWO_16
            && FromLittle(h[8..12]) == s.timestamp % TWO_32
            && FromLittle(h[12..16]) == s.sequence % TWO_32
            && FromLittle(h[16..20]) == s.unacknowledged % TWO_32
            && FromLittle(h[20..24]) == |s.data|
  {
    PowersOf256();
    hide Little, FromLittle, Pow256, Layout;
    LayoutFields(Little(s.conversation % TWO_32, 4), s.command, s.fragment,
                 Little(s.window % TWO_16, 2), Little(s.timestamp % TWO_32, 4),
                 Little(s.sequence % TWO_32, 4), Little(s.unacknowledged % TWO_32, 4),
                 Little(|s.data|, 4));
    LittleRoundTrip(s.conversation % TWO_32, 4);
    LittleRoundTrip(s.window % TWO_16, 2);
    LittleRoundTrip(s.timestamp % TWO_32, 4);
    LittleRoundTrip(s.sequence % TWO_32, 4);
    LittleRoundTrip(s.unacknowledged % TWO_32, 4);
    LittleRoundTrip(|s.data|, 4);
  }

  /** Parsing undoes building, up to the header widths and whatever bytes
      follow the segment. */
  lemma ParseBuild(s: Segment, trailing: Bytes)
    requires Buildable(s)
    ensures BuildSegment(s).Some?
    ensures ParseSegment(BuildSegment(s).value + trailing) == Some(OnWire(s))
  {
    HeaderFields(s);
    var h := Header(s);
    var raw := h + s.data + trailing;
    assert forall lo, hi | 0 <= lo <= hi <= 24 :: raw[lo..hi] == h[lo..hi];
    assert raw[4] == h[4] && raw[5] == h[5];
    assert raw[24..24 + |s.data|] == s.data;
  }

  lemma Field32(field: Bytes)
    requires |field| == 4
    ensures FromLittle(field) % TWO_32 == FromLittle(field) < TWO_32
    ensures Little(FromLittle(field), 4) == field
  {
    PowersOf256();
    FromLittleRoundTrip(field);
  }

  lemma Field16(field: Bytes)
    requires |field| == 2
    ensures FromLittle(field) % TWO_16 == FromLittle(field)
    ensures Little(FromLittle(field), 2) == field
  {
    PowersOf256();
    FromLittleRoundTrip(field);
  }

  lemma HeaderParts(raw: Bytes)
    requires |raw| >= KCP_HEADER_LENGTH
    ensures raw[..24] == Layout(raw[0..4], raw[4], raw[5], raw[6..8], raw[8..12],
                                raw[12..16], raw[16..20], raw[20..24])
  {
  }

  lemma ParsedFields(raw: Bytes, s: Segment)
    requires ParseSegment(raw) == Some(s)
    ensures OnWire(s) == s && Buildable(s)
    ensures Header(s) == raw[..24]
  {
    Field32(raw[0..4]);
    Field16(raw[6..8]);
    Field32(raw[8..12]);
    Field32(raw[12..16]);
    Field32(raw[16..20]);
    Field32(raw[20..24]);
    HeaderParts(raw);
  }

  /** Building undoes parsing: a parsed segment rebuilds to exactly the bytes
      it occupied, so the codec loses nothing. */
  lemma BuildParse(raw: Bytes)
    requires ParseSegment(raw).Some?
    ensures var s := ParseSegment(raw).value;
            && OnWire(s) == s
            && BuildSegment(s) == Some(raw[..KCP_HEADER_LENGTH + |s.data|])
  {
    var s := ParseSegment(raw).value;
    ParsedFields(raw, s);
    assert raw[..24] + s.data == raw[..24 + |s.data|];
  }

  /** The number in four bytes of a header, lowest first. */
  function At4(raw: Bytes, at: nat): int
    requires at + 4 <= |raw|
  {
    Four(raw[at], raw[at + 1], raw[at + 2], raw[at + 3])
  }

  lemma At4Is(raw: Bytes, at: nat)
    requires at + 4 <= |raw|
    ensures At4(raw, at) == FromLittle(raw[at..at + 4])
  {
    NumberOf(raw[at..at + 4]);
  }

  /** Which segments the header can carry, and where each field goes in it, lowest
      byte first and cut to its width. */
  lemma BuiltExactly(s: Segment)
    ensures BuildSegment(s).Some?
            <==> s.command < 256 && s.fragment < 256 && |s.data| < 0x1_0000_0000
    ensures BuildSegment(s).Some? ==>
              var raw := BuildSegment(s).value;
              && |raw| == 24 + |s.data| && raw[24..] == s.data
              && At4(raw, 0) == s.conversation % 0x1_0000_0000
              && raw[4] == s.command && raw[5] == s.fragment
              && Two(raw[6], raw[7]) == s.window % 0x1_0000
              && At4(raw, 8) == s.timestamp % 0x1_0000_0000
              && At4(raw, 12) == s.sequence % 0x1_0000_0000
              && At4(raw, 16) == s.unacknowledged % 0x1_0000_0000
              && At4(raw, 20) == |s.data|
  {
    if BuildSegment(s).Some? {
      HeaderFields(s);
      var raw, h := BuildSegment(s).value, Header(s);
      hide Header, Little, FromLittle;
      assert raw == h + s.data;
      At4Is(h, 0);
      At4Is(h, 8);
      At4Is(h, 12);
      At4Is(h, 16);
      At4Is(h, 20);
      NumberOf(h[6..8]);
      assert forall k :: 0 <= k < 24 ==> raw[k] == h[k];
    }
  }

  /** What bytes are a segment, and what it is, field by field. */
  lemma ParsedExactly(raw: Bytes)
    ensures ParseSegment(raw).Some? <==> |raw| >= 24 && 24 + At4(raw, 20) <= |raw|
    ensures ParseSegment(raw).Some? ==>
              ParseSegment(raw).value
              == Segment(At4(raw, 0), raw[4], raw[5], Two(raw[6], raw[7]), At4(raw, 8),
                         At4(raw, 12), At4(raw, 16), raw[24..24 + At4(raw, 20)])
  {
    if |raw| >= 24 {
      At4Is(raw, 0);
      At4Is(raw, 8);
      At4Is(raw, 12);
      At4Is(raw, 16);
      At4Is(raw, 20);
      NumberOf(raw[6..8]);
      hide FromLittle, FromBig, At4;
    }
  }
}
