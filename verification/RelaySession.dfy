/** The relay session object: the table of conversations it routes to, and the
    signaling tunnel it writes. */
module RelaySessions {
  import opened ByteStrings
  import opened KcpSegment
  import opened Kcp
  import opened Conversation
  import opened Crypto
  import opened RelayRouting
  import opened Tunnel
  import opened TunnelStream
  import opened RelayFraming
  import opened RelayConnections

  /** The future that waits for the video conversation. */
  datatype VideoFuture = Waiting | Ready | Cancelled

  class RelaySession {
    const connection: RelayConnection
    var conversations: map<nat, KcpConversation>
    var signalingSequence: nat
    var videoReady: VideoFuture
    var closeHandler: bool
    var closed: bool
    /** The pushes of the signaling tunnel handed to the connection, and how often
        the close handler was called. */
    ghost var tunnelled: seq<Segment>
    ghost var closeCalls: nat

    /** Each conversation is in the table once, under its own id. */
    ghost predicate Valid()
      reads this, conversations.Values
    {
      forall id :: id in conversations ==>
        conversations[id].conversation == id && conversations[id].Valid()
    }

    /** The tunnel's pushes are numbered from zero on, over all calls. */
    ghost predicate InSequence()
      reads this`tunnelled, this`signalingSequence
    {
      Numbered(tunnelled) && |tunnelled| == signalingSequence
    }

    /** Nobody waits for a video conversation that exists, and nobody was given
        one that does not. */
    predicate VideoTracked()
      reads this
    {
      && (videoReady == Ready ==> VIDEO_CONVERSATION in conversations)
      && (videoReady == Waiting ==> VIDEO_CONVERSATION !in conversations)
    }

    ghost function States(): Conversations
      reads this, conversations.Values
    {
      map id | id in conversations :: conversations[id].Snapshot()
    }

    constructor (tag: Tagger, mediaKey: Bytes)
      ensures Valid() && VideoTracked() && InSequence()
      ensures fresh(connection) && connection.tag == tag && connection.mediaKey == mediaKey
      ensures States() == map[CONTROL_CONVERSATION := Fresh(CONTROL_CONVERSATION)]
      ensures signalingSequence == 0 && tunnelled == [] && !closed && videoReady == Waiting
      ensures !closeHandler && closeCalls == 0
      ensures forall id :: id in conversations ==> fresh(conversations[id])
    {
      connection := new RelayConnection(tag, mediaKey);
      var control := new KcpConversation(CONTROL_CONVERSATION);
      conversations := map[CONTROL_CONVERSATION := control];
      signalingSequence, videoReady, tunnelled := 0, Waiting, [];
      closeHandler, closed, closeCalls := false, false, 0;
    }

    /** File a new conversation. */
    method Register(id: nat, c: KcpConversation)
      requires Valid() && id !in conversations && c.Valid()
      requires c.conversation == id
      modifies this`conversations
      ensures Valid() && conversations == old(conversations)[id := c]
      ensures States() == old(States())[id := old(c.Snapshot())]
    {
      conversations := conversations[id := c];
    }

    /** The conversation with an id, created on first sight. */
    method ConversationFor(id: nat) returns (c: KcpConversation)
      requires Valid()
      modifies this`conversations
      ensures Valid()
      ensures id in conversations && c == conversations[id]
      ensures conversations.Keys == old(conversations).Keys + {id}
      ensures forall k :: k in old(conversations) ==> conversations[k] == old(conversations)[k]
      ensures id !in old(conversations) ==> fresh(c)
      ensures States() == old(States())[id := StateOf(old(States()), id)]
    {
      if id in conversations {
        return conversations[id];
      }
      c := new KcpConversation(id);
      assert States() == old(States());
      hide States;
      Register(id, c);
    }

    /** One conversation of the table consumes a segment; the others do not move. */
    method InputInto(id: nat, segment: Segment, clock: Clock)
      requires Valid() && id in conversations
      modifies conversations[id]
      ensures Valid()
      ensures States() == old(States())[id := Kcp.Input(old(States())[id], segment, clock)]
    {
      hide Kcp.Input;
      conversations[id].Input(segment, clock);
      assert forall k :: k in conversations && k != id ==>
          conversations[k].Snapshot() == old(conversations[k].Snapshot());
    }

    /** The first segment of the video conversation resolves the future, unless
        it was given up before. */
    method RouteSegment(raw: Bytes, clock: Clock)
      requires Valid() && VideoTracked()
      modifies this`conversations, this`videoReady, conversations.Values
      ensures Valid() && VideoTracked()
      ensures States() == Route(old(States()), Arrival(raw, clock))
      ensures videoReady
              == if old(videoReady) == Waiting && VIDEO_CONVERSATION in conversations then Ready
                 else old(videoReady)
    {
      hide ParseSegment, Kcp.Input;
      var segment := ParseSegment(raw);
      if segment.None? {
        return;
      }
      hide Valid;
      var id := segment.value.conversation;
      var known := id in conversations;
      ghost var before := States();
      var c := ConversationFor(id);
      ghost var state := StateOf(before, id);
      assert States() == before[id := state];
      InputInto(id, segment.value, clock);
      Overwrite(before, id, state, Kcp.Input(state, segment.value, clock));
      if !known && id == VIDEO_CONVERSATION && videoReady == Waiting {
        ResolveVideo();
      }
    }

    method ResolveVideo()
      requires Valid()
      modifies this`videoReady
      ensures Valid() && videoReady == Ready && States() == old(States())
    {
      videoReady := Ready;
    }

    method CloseOne(id: nat)
      requires Valid() && id in conversations
      modifies conversations[id]
      ensures Valid()
      ensures States() == old(States())[id := Kcp.Close(old(States())[id])]
    {
      var c := conversations[id];
      c.CloseConversation();
      assert forall k :: k in conversations && k != id ==>
          conversations[k].Snapshot() == old(conversations[k].Snapshot());
    }

    method CloseEach()
      requires Valid()
      modifies conversations.Values
      ensures Valid()
      ensures States() == ClosedBut(old(States()), {})
    {
      var left := conversations.Keys;
      while left != {}
        invariant Valid() && left <= conversations.Keys
        invariant States() == ClosedBut(old(States()), left)
        decreases left
      {
        var id :| id in left;
        CloseOne(id);
        CloseOneMore(old(States()), left, id);
        left := left - {id};
      }
    }

    /** The connection is gone: the first time, every conversation is closed, a
        waiter for the video is let go and the close handler is called once. */
    method OnConnectionClosed()
      requires Valid() && VideoTracked()
      modifies this`closed, this`videoReady, this`closeHandler, this`closeCalls
      modifies conversations.Values
      ensures Valid() && VideoTracked() && closed && (old(closed) || videoReady != Waiting)
      ensures old(closed) ==>
        && States() == old(States()) && videoReady == old(videoReady)
        && closeHandler == old(closeHandler) && closeCalls == old(closeCalls)
      ensures !old(closed) ==>
        && States() == ClosedBut(old(States()), {}) && !closeHandler
        && closeCalls == old(closeCalls) + (if old(closeHandler) then 1 else 0)
    {
      if closed {
        return;
      }
      CloseTable();
      CallCloseHandler();
    }

    method CloseTable()
      requires Valid() && VideoTracked()
      modifies this`closed, this`videoReady, conversations.Values
      ensures Valid() && VideoTracked() && closed && videoReady != Waiting
      ensures States() == ClosedBut(old(States()), {})
    {
      MarkClosed();
      CloseEach();
    }

    method MarkClosed()
      requires Valid() && VideoTracked()
      modifies this`closed, this`videoReady
      ensures Valid() && VideoTracked() && States() == old(States())
      ensures closed && videoReady != Waiting
    {
      closed := true;
      if videoReady == Waiting {
        videoReady := Cancelled;
      }
    }

    method CallCloseHandler()
      requires Valid() && VideoTracked()
      modifies this`closeHandler, this`closeCalls
      ensures Valid() && VideoTracked() && States() == old(States()) && !closeHandler
      ensures closeCalls == old(closeCalls) + (if old(closeHandler) then 1 else 0)
    {
      if closeHandler {
        closeCalls := closeCalls + 1;
      }
      closeHandler := false;
    }

    /** Closed by its owner, and the connection with it: the close handler is not
        called, now or later. */
    method AsyncClose()
      requires Valid() && VideoTracked()
      modifies this`closed, this`videoReady, this`closeHandler, conversations.Values, connection
      ensures Valid() && VideoTracked() && closed && videoReady != Waiting && !closeHandler
      ensures States() == ClosedBut(old(States()), {})
      ensures connection.closed && (old(connection.closed) || !connection.connected)
    {
      CloseTable();
      SetCloseHandler(false);
      CloseConnection();
    }

    method CloseConnection()
      requires Valid()
      modifies connection
      ensures Valid() && States() == old(States())
      ensures connection.closed && (old(connection.closed) || !connection.connected)
    {
      connection.AsyncClose();
    }

    method SetCloseHandler(installed: bool)
      requires Valid()
      modifies this`closeHandler
      ensures Valid() && States() == old(States()) && closeHandler == installed
    {
      closeHandler := installed;
    }

    /** What the connection, as it is, puts on the wire for some pushes. */
    ghost function OnTheWire(pushes: seq<Segment>): Bytes
      reads connection`connected, connection`closed
    {
      WrittenIf(connection.connected && !connection.closed, connection.tag, connection.mediaKey,
                pushes)
    }

    /** One record as a hand-built push, sent exactly once. */
    method SendTunnelSegment(record: Bytes)
      requires IsTagger(connection.tag) && RecordShaped(record)
      modifies this`signalingSequence, this`tunnelled, connection`written
      ensures tunnelled == old(tunnelled) + [TunnelPush(old(signalingSequence), record)]
      ensures signalingSequence == old(signalingSequence) + 1
      ensures connection.written
              == old(connection.written) + OnTheWire([TunnelPush(old(signalingSequence), record)])
    {
      var push := TunnelPush(signalingSequence, record);
      ShapedFits(connection.tag, connection.mediaKey, signalingSequence, record);
      WrittenIfOne(connection.connected && !connection.closed, connection.tag,
                   connection.mediaKey, push);
      hide BuildSegment, MediaFrame, IsTagger, RecordShaped, WrittenIf;
      var ok := connection.WriteSegment(BuildSegment(push).value);
      tunnelled := tunnelled + [push];
      signalingSequence := signalingSequence + 1;
    }

    /** False is the overflow raised for a frame longer than its length field
        can say; nothing is written then. */
    method SendTunnelFrame(cbc: Cbc, key: Bytes, frame: Bytes, ivs: nat -> Bytes)
      returns (ok: bool)
      requires InSequence() && IsTagger(connection.tag) && IsCipher(cbc)
      requires forall k :: |ivs(k)| == AES_BLOCK_SIZE
      modifies this`signalingSequence, this`tunnelled, connection`written
      ensures InSequence() && ok == (|frame| < TWO_16)
      ensures !ok ==> tunnelled == old(tunnelled) && connection.written == old(connection.written)
      ensures ok ==>
        var pushes := Pushes(old(signalingSequence), Records(cbc, key, frame, ivs));
        && tunnelled == old(tunnelled) + pushes
        && connection.written == old(connection.written) + OnTheWire(pushes)
    {
      if |frame| >= TWO_16 {
        return false;
      }
      var parts := [[0x00, 0x01] + Big(|frame|, 2), frame];
      if |frame| % 2 == 1 {
        parts := parts + [[0x00]];
      }
      assert parts == BodyParts(frame);
      BodyIsJoined(frame);
      UnpadPad(TunnelBody(frame));
      hide IsTagger, IsCipher, Pad, Join, TunnelBody, WrittenIf, Pushes;
      SendRecords(cbc, key, Pad(Join(parts)), ivs);
      return true;
    }

    /** The loop that cuts, encrypts and writes a padded body. */
    method SendRecords(cbc: Cbc, key: Bytes, padded: Bytes, ivs: nat -> Bytes)
      requires InSequence() && IsTagger(connection.tag) && IsCipher(cbc)
      requires |padded| % AES_BLOCK_SIZE == 0 && forall k :: |ivs(k)| == AES_BLOCK_SIZE
      modifies this`signalingSequence, this`tunnelled, connection`written
      ensures InSequence()
      ensures var records := RecordsUpTo(cbc, key, padded, ivs, RecordCount(|padded|));
              var pushes := Pushes(old(signalingSequence), records);
              && tunnelled == old(tunnelled) + pushes
              && connection.written == old(connection.written) + OnTheWire(pushes)
    {
      hide Pushes, RecordCount, IsTagger, IsCipher, WrittenIf, Numbered, RecordShaped, Slice;
      ghost var first, up := signalingSequence, connection.connected && !connection.closed;
      ghost var records: seq<Bytes> := [];
      var offset, drawn := 0, 0;
      NothingWritten(up, connection.tag, connection.mediaKey, first);
      while offset < |padded|
        invariant drawn == |records| && offset == drawn * TUNNEL_CHUNK
        invariant drawn > 0 ==> (drawn - 1) * TUNNEL_CHUNK < |padded|
        invariant records == RecordsUpTo(cbc, key, padded, ivs, |records|)
        invariant signalingSequence == first + |records|
        invariant tunnelled == old(tunnelled) + Pushes(first, records)
        invariant connection.written == old(connection.written) + OnTheWire(Pushes(first, records))
        decreases |padded| - offset
      {
        var iv := ivs(drawn);
        var chunk := Slice(padded, offset, offset + TUNNEL_CHUNK);
        assert chunk == ChunkOf(padded, drawn);
        ChunkInRange(|padded|, drawn);
        ChunkShape(padded, drawn);
        RecordOpens(cbc, key, iv, chunk);
        ghost var record := iv + cbc.encrypt(key, iv, chunk);
        SendTunnelSegment(iv + cbc.encrypt(key, iv, chunk));
        OneMoreTunnelled(old(tunnelled), first, records, record);
        WrittenIfMore(up, connection.tag, connection.mediaKey, first, records, record,
                      old(connection.written));
        records := records + [record];
        offset, drawn := offset + TUNNEL_CHUNK, drawn + 1;
      }
      AllRecords(|padded|, drawn);
      PushesContinue(old(tunnelled), records);
    }
  }
}
