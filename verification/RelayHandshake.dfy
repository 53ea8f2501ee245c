/** The f4 handshake frame: a TLV list, an encrypted section and a MAC. */
module RelayHandshake {
  import opened ByteStrings
  import opened Crypto
  import opened RelayFraming

  const MAC_LENGTH: nat := 32
  const HANDSHAKE_TLV_START: nat := 8
  const ENCRYPTED_SECTION_MARKER: byte := 0x07
  const TLV_INITIALIZATION_VECTOR: nat := 2

  /** HMAC-SHA256 stays abstract: any function with 32 bytes of output. */
  type Mac = (Bytes, Bytes) -> Bytes

  ghost predicate IsMac(mac: Mac) {
    forall key, signed: Bytes {:trigger mac(key, signed)} :: |mac(key, signed)| == MAC_LENGTH
  }

  function TypeLengthValue(kind: nat, value: Bytes): (tlv: Bytes)
    ensures |tlv| == TLV_HEADER_LENGTH + |value|
  {
    Big(kind, 2) + Big(|value|, 2) + value
  }

  /** The encrypted section, from its marker on. */
  function Section(ciphertext: Bytes): Bytes {
    [ENCRYPTED_SECTION_MARKER] + Big(|ciphertext|, 2) + ciphertext
  }

  const TERMINATOR: Bytes := [0, 0, 0, 0]

  function Body(index: nat, iv: Bytes, sessionId: Bytes, username: Bytes,
                ciphertext: Bytes): Bytes {
    ([0x00, 0x01, 0x00, 0x02] + Big(index, 2) + [0x00, 0x00])
    + (TypeLengthValue(2, iv)
       + (TypeLengthValue(3, sessionId)
          + (TypeLengthValue(4, username) + (TERMINATOR + Section(ciphertext)))))
  }

  /** None is the overflow Python raises when a length does not fit two bytes;
      the frame's own length covers every other one. */
  function Assemble(cbc: Cbc, mac: Mac, index: nat, key: Bytes, iv: Bytes, sessionId: Bytes,
                    username: Bytes, message: Bytes): Option<Bytes> {
    var body := Body(index, iv, sessionId, username, EncryptCbc(cbc, key, iv, message));
    var length := |body| + TLV_HEADER_LENGTH + MAC_LENGTH;
    if index >= TWO_16 || length >= TWO_16 then None
    else
      var signed := [FRAME_HANDSHAKE, 0x00] + Big(length, 2) + body + [0x00, 0x08, 0x00, 0x20];
      Some(signed + mac(key, signed))
  }

  // ------------------------------------------------------------ parser

  /** Where the TLV list ended and the initialization vector found on the way,
      or a TLV that runs past the payload. */
  datatype Tlvs = Ended(cursor: nat, iv: Option<Bytes>) | Truncated

  function ScanTlvs(payload: Bytes, cursor: nat, iv: Option<Bytes>): Tlvs
    decreases |payload| - cursor
  {
    if cursor + TLV_HEADER_LENGTH > |payload| then Ended(cursor, iv)
    else
      var kind := FromBig(payload[cursor..cursor + 2]);
      if kind == 0 && payload[cursor + 2..cursor + 4] == [0, 0]
      then Ended(cursor + TLV_HEADER_LENGTH, iv)
      else
        var length := FromBig(payload[cursor + 2..cursor + 4]);
        var next := cursor + TLV_HEADER_LENGTH + length;
        if next > |payload| then Truncated
        else
          ScanTlvs(payload, next,
                   if kind == TLV_INITIALIZATION_VECTOR
                   then Some(payload[cursor + TLV_HEADER_LENGTH..next]) else iv)
  }

  /** The plaintext of the encrypted section; None is the protocol error. */
  function Open(cbc: Cbc, key: Bytes, payload: Bytes, tlvs: Tlvs): Option<Bytes> {
    if tlvs.Truncated? then None
    else if tlvs.iv.None? || tlvs.cursor >= |payload|
            || payload[tlvs.cursor] != ENCRYPTED_SECTION_MARKER then None
    else
      var length := FromBig(Slice(payload, tlvs.cursor + 1, tlvs.cursor + 3));
      DecryptCbc(cbc, key, tlvs.iv.value,
                 Slice(payload, tlvs.cursor + 3, tlvs.cursor + 3 + length))
  }

  function Parse(cbc: Cbc, key: Bytes, payload: Bytes): Option<Bytes> {
    Open(cbc, key, payload, ScanTlvs(payload, HANDSHAKE_TLV_START, None))
  }

  /** `parse_handshake_frame` up to the JSON it decodes: on any bytes the cursor
      advances by at least a TLV header per turn, so the loop ends. */
  method ParseHandshakeFrame(cbc: Cbc, key: Bytes, payload: Bytes) returns (plain: Option<Bytes>)
    ensures plain == Parse(cbc, key, payload)
  {
    var cursor := HANDSHAKE_TLV_START;
    var iv: Option<Bytes> := None;
    ghost var all := ScanTlvs(payload, HANDSHAKE_TLV_START, None);
    while cursor + TLV_HEADER_LENGTH <= |payload|
      invariant ScanTlvs(payload, cursor, iv) == all
      decreases |payload| - cursor
    {
      var kind := FromBig(payload[cursor..cursor + 2]);
      if kind == 0 && payload[cursor + 2..cursor + 4] == [0, 0] {
        cursor := cursor + TLV_HEADER_LENGTH;
        assert all == Ended(cursor, iv);
        break;
      }
      var length := FromBig(payload[cursor + 2..cursor + 4]);
      if cursor + TLV_HEADER_LENGTH + length > |payload| {
        return None;
      }
      if kind == TLV_INITIALIZATION_VECTOR {
        iv := Some(payload[cursor + TLV_HEADER_LENGTH..cursor + TLV_HEADER_LENGTH + length]);
      }
      cursor := cursor + TLV_HEADER_LENGTH + length;
    }
    assert all == Ended(cursor, iv);
    if iv.None? || cursor >= |payload| || payload[cursor] != ENCRYPTED_SECTION_MARKER {
      return None;
    }
    var length := FromBig(Slice(payload, cursor + 1, cursor + 3));
    plain := DecryptCbc(cbc, key, iv.value, Slice(payload, cursor + 3, cursor + 3 + length));
  }

  // -------------------------------------------------------- round trip

  lemma TlvFields(kind: nat, value: Bytes)
    requires kind < TWO_16 && |value| < TWO_16
    ensures FromBig(TypeLengthValue(kind, value)[0..2]) == kind
    ensures FromBig(TypeLengthValue(kind, value)[2..4]) == |value|
    ensures TypeLengthValue(kind, value)[4..] == value
  {
    FromBigTwo(kind);
    FromBigTwo(|value|);
    hide FromBig, Big;
    var tlv := TypeLengthValue(kind, value);
    assert tlv[0..2] == Big(kind, 2) && tlv[2..4] == Big(|value|, 2);
  }

  /** The scan passes over one TLV. */
  lemma ScanOne(payload: Bytes, cursor: nat, iv: Option<Bytes>, kind: nat, value: Bytes,
                rest: Bytes, next: nat)
    requires next == cursor + TLV_HEADER_LENGTH + |value|
    requires cursor <= |payload| && payload[cursor..] == TypeLengthValue(kind, value) + rest
    requires 0 < kind < TWO_16 && |value| < TWO_16
    ensures next <= |payload| && payload[next..] == rest
    ensures ScanTlvs(payload, cursor, iv)
            == ScanTlvs(payload, next,
                        if kind == TLV_INITIALIZATION_VECTOR then Some(value) else iv)
  {
    var tlv := TypeLengthValue(kind, value);
    TlvFields(kind, value);
    hide FromBig, Big, TypeLengthValue;
    SuffixSplit(payload, cursor, tlv, rest);
    var end := cursor + |tlv|;
    SliceOfSlice(payload, cursor, end, 0, 2);
    SliceOfSlice(payload, cursor, end, 2, 4);
    SliceOfSlice(payload, cursor, end, 4, |tlv|);
  }

  lemma ScanTerminator(payload: Bytes, cursor: nat, iv: Option<Bytes>, rest: Bytes)
    requires cursor <= |payload| && payload[cursor..] == TERMINATOR + rest
    ensures ScanTlvs(payload, cursor, iv) == Ended(cursor + TLV_HEADER_LENGTH, iv)
    ensures cursor + TLV_HEADER_LENGTH <= |payload|
    ensures payload[cursor + TLV_HEADER_LENGTH..] == rest
  {
    SuffixSplit(payload, cursor, TERMINATOR, rest);
    assert payload[cursor..cursor + 4] == TERMINATOR;
    SliceOfSlice(payload, cursor, cursor + 4, 0, 2);
    SliceOfSlice(payload, cursor, cursor + 4, 2, 4);
    assert payload[cursor..cursor + 2] == [0, 0];
    assert FromBig([0, 0]) == 0 by {
      assert [0, 0][..1] == [0] && [0][..0] == [];
      assert FromBig([]) == 0;
      assert FromBig([0]) == 0;
    }
  }

  lemma OpenSection(cbc: Cbc, key: Bytes, payload: Bytes, cursor: nat, iv: Bytes, message: Bytes,
                    rest: Bytes)
    requires IsCipher(cbc) && cursor <= |payload|
    requires payload[cursor..] == Section(EncryptCbc(cbc, key, iv, message)) + rest
    requires |EncryptCbc(cbc, key, iv, message)| < TWO_16
    ensures Open(cbc, key, payload, Ended(cursor, Some(iv))) == Some(message)
  {
    var ciphertext := EncryptCbc(cbc, key, iv, message);
    FromBigTwo(|ciphertext|);
    CbcRoundTrip(cbc, key, iv, message);
    hide FromBig, Big, EncryptCbc, DecryptCbc, IsCipher;
    var head := [ENCRYPTED_SECTION_MARKER] + Big(|ciphertext|, 2);
    assert Section(ciphertext) == head + ciphertext;
    SuffixSplitThree(payload, cursor, head, ciphertext, rest);
    assert payload[cursor..cursor + 3] == head;
    SliceOfSlice(payload, cursor, cursor + 3, 1, 3);
    assert payload[cursor + 1..cursor + 3] == head[1..3] == Big(|ciphertext|, 2);
    assert payload[cursor] == payload[cursor..cursor + 3][0];
  }

  /** The TLV scan of an assembled payload finds the vector and the section. */
  lemma ScanBody(payload: Bytes, index: nat, iv: Bytes, sessionId: Bytes, username: Bytes,
                 ciphertext: Bytes, rest: Bytes, at: nat)
    requires payload == Body(index, iv, sessionId, username, ciphertext) + rest
    requires at == HANDSHAKE_TLV_START + |iv| + |sessionId| + |username| + 16
    requires |iv| < TWO_16 && |sessionId| < TWO_16 && |username| < TWO_16
    ensures at <= |payload| && payload[at..] == Section(ciphertext) + rest
    ensures ScanTlvs(payload, HANDSHAKE_TLV_START, None) == Ended(at, Some(iv))
  {
    BodyNested(payload, index, iv, sessionId, username, ciphertext, rest);
    hide ScanTlvs, TypeLengthValue, Section, Body;
    ScanNested(payload, iv, sessionId, username, Section(ciphertext) + rest, at);
  }

  lemma ScanNested(payload: Bytes, iv: Bytes, sessionId: Bytes, username: Bytes, tail: Bytes,
                   at: nat)
    requires |payload| >= 8
    requires payload[8..]
             == TypeLengthValue(2, iv)
                + (TypeLengthValue(3, sessionId)
                   + (TypeLengthValue(4, username) + (TERMINATOR + tail)))
    requires at == 24 + |iv| + |sessionId| + |username|
    requires |iv| < TWO_16 && |sessionId| < TWO_16 && |username| < TWO_16
    ensures at <= |payload| && payload[at..] == tail
    ensures ScanTlvs(payload, 8, None) == Ended(at, Some(iv))
  {
    hide ScanTlvs, TypeLengthValue;
    var fourth := TypeLengthValue(4, username) + (TERMINATOR + tail);
    var third := TypeLengthValue(3, sessionId) + fourth;
    var cursor3, cursor4 := 12 + |iv|, 16 + |iv| + |sessionId|;
    var end := cursor4 + 4 + |username|;
    ScanOne(payload, 8, None, 2, iv, third, cursor3);
    ScanOne(payload, cursor3, Some(iv), 3, sessionId, fourth, cursor4);
    ScanOne(payload, cursor4, Some(iv), 4, username, TERMINATOR + tail, end);
    ScanTerminator(payload, end, Some(iv), tail);
  }

  lemma BodyNested(payload: Bytes, index: nat, iv: Bytes, sessionId: Bytes, username: Bytes,
                   ciphertext: Bytes, rest: Bytes)
    requires payload == Body(index, iv, sessionId, username, ciphertext) + rest
    ensures |payload| >= 8
    ensures payload[8..]
            == TypeLengthValue(2, iv)
               + (TypeLengthValue(3, sessionId)
                  + (TypeLengthValue(4, username) + (TERMINATOR + (Section(ciphertext) + rest))))
  {
    var head := [0x00, 0x01, 0x00, 0x02] + Big(index, 2) + [0x00, 0x00];
    var t2, t3, t4 := TypeLengthValue(2, iv), TypeLengthValue(3, sessionId),
                      TypeLengthValue(4, username);
    var section := Section(ciphertext);
    assert |head| == 8;
    hide TypeLengthValue, Section;
    var d4 := TERMINATOR + section;
    var d3 := t4 + d4;
    var d2 := t3 + d3;
    var d1 := t2 + d2;
    ConcatAssoc(TERMINATOR, section, rest);
    ConcatAssoc(t4, d4, rest);
    ConcatAssoc(t3, d3, rest);
    ConcatAssoc(t2, d2, rest);
    ConcatAssoc(head, d1, rest);
    assert payload == head + (d1 + rest);
    assert payload[8..] == d1 + rest;
  }

  /** For every key, vector, session id, user name and message whose frame can be
      built, the parser recovers the message from the frame's payload. */
  lemma ParseAssembled(cbc: Cbc, mac: Mac, index: nat, key: Bytes, iv: Bytes, sessionId: Bytes,
                       username: Bytes, message: Bytes)
    requires IsCipher(cbc) && IsMac(mac)
    requires Assemble(cbc, mac, index, key, iv, sessionId, username, message).Some?
    ensures var frame := Assemble(cbc, mac, index, key, iv, sessionId, username, message).value;
            && ReadFrame(frame).Some?
            && ReadFrame(frame).value.magic == FRAME_HANDSHAKE
            && ReadFrame(frame).value.rest == []
            && Parse(cbc, key, ReadFrame(frame).value.payload) == Some(message)
  {
    var ciphertext := EncryptCbc(cbc, key, iv, message);
    var body := Body(index, iv, sessionId, username, ciphertext);
    var length := |body| + TLV_HEADER_LENGTH + MAC_LENGTH;
    var header := [FRAME_HANDSHAKE, 0x00] + Big(length, 2);
    var trailer: Bytes := [0x00, 0x08, 0x00, 0x20];
    var signed := header + body + trailer;
    var rest := trailer + mac(key, signed);
    var payload := body + rest;
    assert |mac(key, signed)| == MAC_LENGTH;
    assert |payload| == length;
    BodyLengths(index, iv, sessionId, username, ciphertext);
    hide IsCipher, IsMac, EncryptCbc, Body, Section, ScanTlvs, Open, Big, FromBig, ReadFrame;
    ConcatAssoc(header + body, trailer, mac(key, signed));
    ConcatAssoc(header, body, rest);
    ReadRelayFrame(FRAME_HANDSHAKE, payload, []);
    assert header + payload + [] == header + payload;
    var at := HANDSHAKE_TLV_START + |iv| + |sessionId| + |username| + 16;
    ScanBody(payload, index, iv, sessionId, username, ciphertext, rest, at);
    OpenSection(cbc, key, payload, at, iv, message, rest);
  }

  /** A frame ends with a tag over all of it but the tag itself, announced by the
      four bytes before. */
  lemma AssembledIsSigned(cbc: Cbc, mac: Mac, index: nat, key: Bytes, iv: Bytes,
                          sessionId: Bytes, username: Bytes, message: Bytes)
    requires IsMac(mac)
    requires Assemble(cbc, mac, index, key, iv, sessionId, username, message).Some?
    ensures var frame := Assemble(cbc, mac, index, key, iv, sessionId, username, message).value;
            && |frame| >= TLV_HEADER_LENGTH + MAC_LENGTH
            && frame[|frame| - MAC_LENGTH..] == mac(key, frame[..|frame| - MAC_LENGTH])
            && frame[|frame| - MAC_LENGTH - 4..|frame| - MAC_LENGTH] == [0x00, 0x08, 0x00, 0x20]
  {
    var body := Body(index, iv, sessionId, username, EncryptCbc(cbc, key, iv, message));
    hide Body, EncryptCbc, Big;
    var head := [FRAME_HANDSHAKE, 0x00] + Big(|body| + TLV_HEADER_LENGTH + MAC_LENGTH, 2) + body;
    SignedParts(head, [0x00, 0x08, 0x00, 0x20],
                mac(key, head + [0x00, 0x08, 0x00, 0x20]));
  }

  lemma SignedParts(head: Bytes, announced: Bytes, digest: Bytes)
    ensures var frame := head + announced + digest;
            var at := |frame| - |digest|;
            && frame[at..] == digest && frame[..at] == head + announced
            && frame[at - |announced|..at] == announced
  {
  }

  lemma BodyLengths(index: nat, iv: Bytes, sessionId: Bytes, username: Bytes, ciphertext: Bytes)
    ensures |Body(index, iv, sessionId, username, ciphertext)|
            == 27 + |iv| + |sessionId| + |username| + |ciphertext|
  {
  }

  // ------------------------------------------------------- byte for byte

  /** A number below 65536 as two bytes, high byte first. */
  function Bytes2(v: nat): Bytes { [v / 0x100 % 0x100, v % 0x100] }

  function Tagged(kind: nat, value: Bytes): Bytes { Bytes2(kind) + Bytes2(|value|) + value }

  lemma BigIs(v: nat)
    requires v < TWO_16
    ensures Big(v, 2) == Bytes2(v)
  {
    Pair(v);
    var b := Big(v, 2);
    assert b == [b[0], b[1]];
  }

  lemma TaggedIs(kind: nat, value: Bytes)
    requires kind < TWO_16 && |value| < TWO_16
    ensures TypeLengthValue(kind, value) == Tagged(kind, value)
  {
    BigIs(kind);
    BigIs(|value|);
  }

  /** What lies between a frame's header and its tag: the message index, the vector,
      the session id and the user name under their numbers, an empty one, and the
      encrypted message behind a seven and its length. */
  predicate IsBody(body: Bytes, index: nat, iv: Bytes, sessionId: Bytes, username: Bytes,
                   ciphertext: Bytes) {
    body == [0x00, 0x01, 0x00, 0x02] + Bytes2(index) + [0x00, 0x00]
            + (Tagged(2, iv) + (Tagged(3, sessionId) + (Tagged(4, username)
               + ([0x00, 0x00, 0x00, 0x00] + ([0x07] + Bytes2(|ciphertext|) + ciphertext)))))
  }

  lemma BodyExactly(index: nat, iv: Bytes, sessionId: Bytes, username: Bytes, ciphertext: Bytes)
    requires index < 0x1_0000
    requires |Body(index, iv, sessionId, username, ciphertext)| < 0x1_0000
    ensures IsBody(Body(index, iv, sessionId, username, ciphertext), index, iv, sessionId,
                   username, ciphertext)
  {
    BodyLengths(index, iv, sessionId, username, ciphertext);
    BigIs(index);
    BigIs(|ciphertext|);
    TaggedIs(2, iv);
    TaggedIs(3, sessionId);
    TaggedIs(4, username);
    hide Big, Bytes2, Tagged, TypeLengthValue;
  }

  /** Which frames can be built, and what they are: magic 0xf4, a zero, the length of
      everything behind it, the body, and the tag of all that under the key. */
  lemma AssembledExactly(cbc: Cbc, mac: Mac, index: nat, key: Bytes, iv: Bytes, sessionId: Bytes,
                         username: Bytes, message: Bytes)
    ensures var ciphertext := cbc.encrypt(key, iv, Pad(message));
            var length := 63 + |iv| + |sessionId| + |username| + |ciphertext|;
            var built := Assemble(cbc, mac, index, key, iv, sessionId, username, message);
            && (built.Some? <==> index < 0x1_0000 && length < 0x1_0000)
            && (built.Some? ==>
                  IsFrame(built.value, mac, key,
                          Body(index, iv, sessionId, username, ciphertext), length)
                  && IsBody(Body(index, iv, sessionId, username, ciphertext), index, iv,
                            sessionId, username, ciphertext))
  {
    var ciphertext := cbc.encrypt(key, iv, Pad(message));
    BodyLengths(index, iv, sessionId, username, ciphertext);
    var body := Body(index, iv, sessionId, username, ciphertext);
    if index < 0x1_0000 && |body| + 36 < 0x1_0000 {
      BodyExactly(index, iv, sessionId, username, ciphertext);
      BigIs(|body| + 36);
    }
    hide Body, IsBody, Big, Pad, Bytes2;
  }

  predicate IsFrame(frame: Bytes, mac: Mac, key: Bytes, body: Bytes, length: nat) {
    var signed := [0xf4, 0x00] + Bytes2(length) + body + [0x00, 0x08, 0x00, 0x20];
    frame == signed + mac(key, signed)
  }

  /** One turn of the scan: the list has ended when no four bytes are left, or with
      four zeros; a value that runs past the payload is an error; the last value under
      number two is the vector. */
  lemma ScanExactly(payload: Bytes, cursor: nat, iv: Option<Bytes>)
    requires cursor <= |payload|
    ensures ScanTlvs(payload, cursor, iv)
            == if cursor + 4 > |payload| then Ended(cursor, iv)
               else if payload[cursor..cursor + 4] == [0, 0, 0, 0] then Ended(cursor + 4, iv)
               else
                 var next := cursor + 4 + Two(payload[cursor + 3], payload[cursor + 2]);
                 if next > |payload| then Truncated
                 else if payload[cursor] == 0 && payload[cursor + 1] == 2
                 then ScanTlvs(payload, next, Some(payload[cursor + 4..next]))
                 else ScanTlvs(payload, next, iv)
  {
    if cursor + 4 <= |payload| {
      var kind, length := payload[cursor..cursor + 2], payload[cursor + 2..cursor + 4];
      NumberOf(kind);
      NumberOf(length);
      assert payload[cursor..cursor + 4] == kind + length;
      assert kind + length == [0, 0, 0, 0] <==> kind == [0, 0] && length == [0, 0] by {
        if kind + length == [0, 0, 0, 0] {
          assert kind == (kind + length)[..2] && length == (kind + length)[2..];
        }
      }
      assert kind == [kind[0], kind[1]] && kind[0] == payload[cursor];
      assert length[0] == payload[cursor + 2] && length[1] == payload[cursor + 3];
      hide FromBig, FromLittle;
    }
  }

  /** What the section behind the list gives: nothing without a vector or a seven, and
      otherwise what decrypts of as many bytes as its length says, or as there are. */
  lemma OpenExactly(cbc: Cbc, key: Bytes, payload: Bytes, cursor: nat, iv: Option<Bytes>)
    ensures Open(cbc, key, payload, Truncated) == None
    ensures Open(cbc, key, payload, Ended(cursor, iv))
            == if iv.None? || cursor + 3 > |payload| || payload[cursor] != 0x07 then None
               else
                 var end := cursor + 3 + Two(payload[cursor + 2], payload[cursor + 1]);
                 DecryptCbc(cbc, key, iv.value,
                            payload[cursor + 3..if end <= |payload| then end else |payload|])
  {
    if cursor + 3 <= |payload| {
      NumberOf(payload[cursor + 1..cursor + 3]);
      hide FromBig, FromLittle, DecryptCbc;
    }
  }
}
