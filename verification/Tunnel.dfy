/** The signaling tunnel: a frame is padded as a whole, split into encrypted
    records, and each record is one hand-built push. */
module Tunnel {
  import opened ByteStrings
  import opened KcpSegment
  import opened Crypto

  const SIGNALING_CONVERSATION: nat := 0x010000F3
  const TUNNEL_WINDOW: nat := 64
  const TUNNEL_CHUNK: nat := 1312

  function TunnelPush(sequence: nat, record: Bytes): Segment {
    Segment(SIGNALING_CONVERSATION, CMD_PUSH, 0, TUNNEL_WINDOW, 0, sequence, 0, record)
  }

  function Pushes(first: nat, records: seq<Bytes>): (pushes: seq<Segment>)
    ensures |pushes| == |records|
  {
    seq(|records|, i requires 0 <= i < |records| => TunnelPush(first + i, records[i]))
  }

  lemma PushesAppend(first: nat, records: seq<Bytes>, record: Bytes)
    ensures Pushes(first, records + [record])
            == Pushes(first, records) + [TunnelPush(first + |records|, record)]
  {
  }

  lemma OneMoreTunnelled(before: seq<Segment>, first: nat, records: seq<Bytes>, record: Bytes)
    ensures before + Pushes(first, records) + [TunnelPush(first + |records|, record)]
            == before + Pushes(first, records + [record])
  {
    PushesAppend(first, records, record);
    ConcatAssoc(before, Pushes(first, records), [TunnelPush(first + |records|, record)]);
  }

  /** Pushes of the tunnel numbered from zero on. */
  predicate Numbered(pushes: seq<Segment>) {
    forall i :: 0 <= i < |pushes| ==>
      pushes[i].conversation == SIGNALING_CONVERSATION && pushes[i].sequence == i
  }

  lemma PushesContinue(before: seq<Segment>, records: seq<Bytes>)
    requires Numbered(before)
    ensures Numbered(before + Pushes(|before|, records))
  {
  }

  /** The frame behind its tag and length, brought to an even length. */
  function TunnelBody(frame: Bytes): Bytes {
    [0x00, 0x01] + Big(|frame|, 2) + frame + (if |frame| % 2 == 1 then [0x00] else [])
  }

  lemma JoinTwo(a: Bytes, b: Bytes)
    ensures Join([a, b]) == a + b
  {
    JoinSingle(a);
    assert [a, b][..1] == [a];
  }

  lemma JoinThree(a: Bytes, b: Bytes, c: Bytes)
    ensures Join([a, b, c]) == a + b + c
  {
    JoinTwo(a, b);
    assert [a, b, c][..2] == [a, b];
  }

  /** The parts the frame is joined from. */
  function BodyParts(frame: Bytes): seq<Bytes> {
    if |frame| % 2 == 1 then [[0x00, 0x01] + Big(|frame|, 2), frame, [0x00]]
    else [[0x00, 0x01] + Big(|frame|, 2), frame]
  }

  lemma BodyIsJoined(frame: Bytes)
    ensures Join(BodyParts(frame)) == TunnelBody(frame)
  {
    var head := [0x00, 0x01] + Big(|frame|, 2);
    JoinTwo(head, frame);
    JoinThree(head, frame, [0x00]);
    hide Big, Join;
    assert head + frame + [] == head + frame;
  }

  function RecordCount(length: nat): nat { (length + TUNNEL_CHUNK - 1) / TUNNEL_CHUNK }

  lemma AllRecords(length: nat, n: nat)
    requires length <= n * TUNNEL_CHUNK && (n > 0 ==> (n - 1) * TUNNEL_CHUNK < length)
    ensures n == RecordCount(length)
  {
  }

  function ChunkOf(padded: Bytes, k: nat): Bytes {
    Slice(padded, k * TUNNEL_CHUNK, k * TUNNEL_CHUNK + TUNNEL_CHUNK)
  }

  /** The first `n` records of a padded body, the k-th under the k-th vector. */
  function RecordsUpTo(cbc: Cbc, key: Bytes, padded: Bytes, ivs: nat -> Bytes, n: nat)
    : (records: seq<Bytes>)
    ensures |records| == n
  {
    if n == 0 then []
    else RecordsUpTo(cbc, key, padded, ivs, n - 1)
         + [ivs(n - 1) + cbc.encrypt(key, ivs(n - 1), ChunkOf(padded, n - 1))]
  }

  function Records(cbc: Cbc, key: Bytes, frame: Bytes, ivs: nat -> Bytes): seq<Bytes> {
    var padded := Pad(TunnelBody(frame));
    RecordsUpTo(cbc, key, padded, ivs, RecordCount(|padded|))
  }

  // ------------------------------------------------------- the other end

  /** A record decrypted without unpadding. */
  function DecryptRaw(cbc: Cbc, key: Bytes, record: Bytes): Bytes {
    if |record| < AES_BLOCK_SIZE then []
    else cbc.decrypt(key, record[..AES_BLOCK_SIZE], record[AES_BLOCK_SIZE..])
  }

  function DecryptAll(cbc: Cbc, key: Bytes, records: seq<Bytes>): Bytes {
    if records == [] then []
    else DecryptAll(cbc, key, records[..|records| - 1])
         + DecryptRaw(cbc, key, records[|records| - 1])
  }

  /** The frame inside a tunnel body, cut by its 16-bit length. */
  function CutFrame(body: Bytes): Bytes
    requires |body| >= 4
  {
    Slice(body, 4, 4 + FromBig(body[2..4]))
  }

  /** A record holds a vector and one to eighty-two whole blocks. */
  predicate RecordShaped(record: Bytes) {
    && AES_BLOCK_SIZE < |record| <= AES_BLOCK_SIZE + TUNNEL_CHUNK
    && |record| % AES_BLOCK_SIZE == 0
  }

  lemma ChunkShape(padded: Bytes, k: nat)
    requires |padded| % AES_BLOCK_SIZE == 0 && k < RecordCount(|padded|)
    ensures 0 < |ChunkOf(padded, k)| <= TUNNEL_CHUNK
    ensures |ChunkOf(padded, k)| % AES_BLOCK_SIZE == 0
    ensures Slice(padded, 0, k * TUNNEL_CHUNK) + ChunkOf(padded, k)
            == Slice(padded, 0, (k + 1) * TUNNEL_CHUNK)
  {
    var start := k * TUNNEL_CHUNK;
    assert start < |padded|;
    WholeBlocksLeft(|padded|, k);
    assert |ChunkOf(padded, k)|
        == if |padded| - start < TUNNEL_CHUNK then |padded| - start else TUNNEL_CHUNK;
    SliceJoin(padded, start, start + TUNNEL_CHUNK);
  }

  lemma ChunkInRange(length: nat, k: nat)
    requires k * TUNNEL_CHUNK < length
    ensures k < RecordCount(length)
  {
  }

  lemma WholeBlocksLeft(length: nat, k: nat)
    requires length % AES_BLOCK_SIZE == 0
    ensures (length - k * TUNNEL_CHUNK) % AES_BLOCK_SIZE == 0
  {
    var blocks := length / AES_BLOCK_SIZE;
    assert length - k * TUNNEL_CHUNK == (blocks - 82 * k) * AES_BLOCK_SIZE;
  }

  lemma SliceJoin(s: Bytes, middle: nat, end: nat)
    requires middle <= |s| && middle <= end
    ensures Slice(s, 0, middle) + Slice(s, middle, end) == Slice(s, 0, end)
  {
  }

  lemma {:induction false} RecordsDecrypt(cbc: Cbc, key: Bytes, padded: Bytes, ivs: nat -> Bytes,
                                          n: nat)
    requires IsCipher(cbc) && forall k :: |ivs(k)| == AES_BLOCK_SIZE
    requires |padded| % AES_BLOCK_SIZE == 0 && n <= RecordCount(|padded|)
    ensures var records := RecordsUpTo(cbc, key, padded, ivs, n);
            && (forall k :: 0 <= k < n ==> RecordShaped(records[k]))
            && DecryptAll(cbc, key, records) == Slice(padded, 0, n * TUNNEL_CHUNK)
  {
    if n == 0 {
      return;
    }
    RecordsDecrypt(cbc, key, padded, ivs, n - 1);
    var iv, chunk := ivs(n - 1), ChunkOf(padded, n - 1);
    var before := RecordsUpTo(cbc, key, padded, ivs, n - 1);
    ChunkShape(padded, n - 1);
    RecordOpens(cbc, key, iv, chunk);
    hide RecordCount, ChunkOf, DecryptAll, RecordShaped, DecryptRaw, Slice;
    DecryptAllAppend(cbc, key, before, iv + cbc.encrypt(key, iv, chunk));
  }

  /** One record is well shaped and decrypts to its chunk. */
  lemma RecordOpens(cbc: Cbc, key: Bytes, iv: Bytes, chunk: Bytes)
    requires IsCipher(cbc) && |iv| == AES_BLOCK_SIZE
    requires 0 < |chunk| <= TUNNEL_CHUNK && |chunk| % AES_BLOCK_SIZE == 0
    ensures RecordShaped(iv + cbc.encrypt(key, iv, chunk))
    ensures DecryptRaw(cbc, key, iv + cbc.encrypt(key, iv, chunk)) == chunk
  {
    var record := iv + cbc.encrypt(key, iv, chunk);
    assert |cbc.encrypt(key, iv, chunk)| == |chunk|;
    assert record[..AES_BLOCK_SIZE] == iv;
    assert record[AES_BLOCK_SIZE..] == cbc.encrypt(key, iv, chunk);
  }

  lemma DecryptAllAppend(cbc: Cbc, key: Bytes, records: seq<Bytes>, record: Bytes)
    ensures DecryptAll(cbc, key, records + [record])
            == DecryptAll(cbc, key, records) + DecryptRaw(cbc, key, record)
  {
    hide DecryptRaw;
    assert (records + [record])[..|records|] == records;
  }

  /** For any frame up to 65535 bytes: each record is a vector and one to
      eighty-two blocks, and decrypting them all, unpadding once and cutting by
      the 16-bit length gives the frame back. */
  lemma TunnelRoundTrip(cbc: Cbc, key: Bytes, frame: Bytes, ivs: nat -> Bytes)
    requires IsCipher(cbc) && (forall k :: |ivs(k)| == AES_BLOCK_SIZE)
    requires |frame| < TWO_16
    ensures forall k :: 0 <= k < |Records(cbc, key, frame, ivs)| ==>
              RecordShaped(Records(cbc, key, frame, ivs)[k])
    ensures var body := Unpad(DecryptAll(cbc, key, Records(cbc, key, frame, ivs)));
            body == Some(TunnelBody(frame)) && |body.value| % 2 == 0
            && CutFrame(body.value) == frame
  {
    var body := TunnelBody(frame);
    var padded := Pad(body);
    UnpadPad(body);
    RecordsDecrypt(cbc, key, padded, ivs, RecordCount(|padded|));
    assert Slice(padded, 0, RecordCount(|padded|) * TUNNEL_CHUNK) == padded;
    BodyFields(frame);
  }

  lemma BodyFields(frame: Bytes)
    requires |frame| < TWO_16
    ensures CutFrame(TunnelBody(frame)) == frame && |TunnelBody(frame)| % 2 == 0
  {
    PowersOf256();
    BigRoundTrip(|frame|, 2);
    hide Big, FromBig;
    var head, pad := [0x00, 0x01] + Big(|frame|, 2), if |frame| % 2 == 1 then [0x00] else [];
    MiddleOf(head, frame, pad);
    assert head[2..4] == Big(|frame|, 2);
  }

  lemma MiddleOf(head: Bytes, middle: Bytes, end: Bytes)
    requires |head| >= 4
    ensures (head + middle + end)[2..4] == head[2..4]
    ensures (head + middle + end)[|head|..|head| + |middle|] == middle
  {
  }

  // ------------------------------------------------------- byte for byte

  /** The push of a record: its own conversation, whole, with a window of 64, no
      timestamp and nothing acknowledged. */
  lemma PushExactly(first: nat, records: seq<Bytes>, k: nat)
    requires k < |records|
    ensures Pushes(first, records)[k]
            == Segment(0x010000F3, 0x51, 0, 64, 0, first + k, 0, records[k])
  {
  }

  /** What is padded and split: a tag of two bytes, the length, high byte first, the
      frame, and a NUL if the frame is of odd length. */
  lemma BodyExactly(frame: Bytes)
    requires |frame| < 0x1_0000
    ensures var body := TunnelBody(frame);
            && |body| == 4 + |frame| + |frame| % 2
            && body[0] == 0x00 && body[1] == 0x01 && Two(body[3], body[2]) == |frame|
            && body[4..4 + |frame|] == frame
            && (|frame| % 2 == 1 ==> body[4 + |frame|] == 0x00)
  {
    PowersOf256();
    BigRoundTrip(|frame|, 2);
    NumberOf(Big(|frame|, 2));
    hide Big, FromBig;
    var head, pad := [0x00, 0x01] + Big(|frame|, 2), if |frame| % 2 == 1 then [0x00] else [];
    MiddleOf(head, frame, pad);
    assert TunnelBody(frame) == head + (frame + pad);
  }

  /** The padded body is cut into pieces of 1312 bytes and what is left, and the k-th
      record is the k-th vector followed by the k-th piece encrypted under it. */
  lemma {:induction false} RecordsUpToExactly(cbc: Cbc, key: Bytes, padded: Bytes,
                                              ivs: nat -> Bytes, n: nat, k: nat)
    requires k < n && k * 1312 <= |padded|
    ensures var end := if (k + 1) * 1312 <= |padded| then (k + 1) * 1312 else |padded|;
            RecordsUpTo(cbc, key, padded, ivs, n)[k]
            == ivs(k) + cbc.encrypt(key, ivs(k), padded[k * 1312..end])
  {
    if k < n - 1 {
      RecordsUpToExactly(cbc, key, padded, ivs, n - 1, k);
    } else {
      ChunkExactly(padded, k);
    }
  }

  lemma ChunkExactly(padded: Bytes, k: nat)
    requires k * 1312 <= |padded|
    ensures ChunkOf(padded, k)
            == padded[k * 1312..if (k + 1) * 1312 <= |padded| then (k + 1) * 1312 else |padded|]
  {
  }

  lemma RecordsExactly(cbc: Cbc, key: Bytes, frame: Bytes, ivs: nat -> Bytes, k: nat)
    requires k < |Records(cbc, key, frame, ivs)|
    ensures var padded := Pad(TunnelBody(frame));
            var count := |Records(cbc, key, frame, ivs)|;
            && (count - 1) * 1312 < |padded| <= count * 1312
            && var end := if k == count - 1 then |padded| else (k + 1) * 1312;
               Records(cbc, key, frame, ivs)[k]
               == ivs(k) + cbc.encrypt(key, ivs(k), padded[k * 1312..end])
  {
    var padded := Pad(TunnelBody(frame));
    var count := RecordCount(|padded|);
    assert (count - 1) * 1312 < |padded| <= count * 1312;
    assert k * 1312 <= (count - 1) * 1312;
    assert k < count - 1 ==> (k + 1) * 1312 <= (count - 1) * 1312;
    RecordsUpToExactly(cbc, key, padded, ivs, count, k);
  }
}
