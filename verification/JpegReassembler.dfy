/** The reassembler object: it extends and overwrites its buffer. */
module JpegReassembly {
  import opened ByteStrings
  import opened Media
  import opened Jpeg

  class JpegReassembler {
    var buffer: Option<Bytes>
    var maxEnd: nat

    ghost function Snapshot(): Reassembly
      reads this
    {
      Reassembly(buffer, maxEnd)
    }

    constructor ()
      ensures Snapshot() == Empty()
    {
      buffer, maxEnd := None, 0;
    }

    method Push(packet: Bytes) returns (completed: Option<Bytes>)
      modifies this
      ensures Snapshot() == Jpeg.Push(old(Snapshot()), packet)
      ensures completed == Jpeg.Completed(old(Snapshot()), packet)
    {
      completed := None;
      if |packet| <= MEDIA_HEADER_LENGTH {
        return;
      }
      var offset := FromBig(packet[MEDIA_OFFSET_FIELD..MEDIA_OFFSET_FIELD + 4]);
      var payload := packet[MEDIA_HEADER_LENGTH..];
      if offset == 0 && StartsWithSoi(payload) {
        completed := FlushFrame();
        buffer := Some([]);
        maxEnd := 0;
      }
      if buffer == None {
        return;
      }
      var end := offset + |payload|;
      if end > MAX_FRAME_SIZE {
        return;
      }
      if end > |buffer.value| {
        buffer := Some(buffer.value + Zeros(end - |buffer.value|));
      }
      buffer := Some(buffer.value[..offset] + payload + buffer.value[end..]);
      maxEnd := Max(maxEnd, end);
    }

    method FlushFrame() returns (frame: Option<Bytes>)
      ensures frame == Jpeg.Flush(Snapshot())
    {
      if buffer == None || maxEnd < MINIMUM_FRAME_LENGTH {
        return None;
      }
      var data := Slice(buffer.value, 0, maxEnd);
      if !StartsWithSoi(data) {
        return None;
      }
      var end := RFind(data, EOI, |data|);
      if end < |SOI| {
        return None;
      }
      return Some(data[..end + |EOI|]);
    }

    method Reset()
      modifies this
      ensures Snapshot() == Empty()
    {
      buffer, maxEnd := None, 0;
    }
  }
}
