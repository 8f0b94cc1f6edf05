/** The EEM framing engine: one receive buffer, one transmit buffer and the transmit-readiness
    gate, driven by callbacks from the USB device stack. The USB stack's primitives (`usb_recv`,
    `usb_send`) and the network stack's frame consumer are outside the model; each call the engine
    makes to them is appended to a ghost log. */
module EemEngine {
  import opened UsbTypes
  import opened EemHeader
  import opened EemChain
  import EemHelper

  /** Size of the trailing CRC-32 field of a data packet. */
  const CrcSize: nat := 4

  /** Capacity of each engine buffer: `EEM_MAX_SEGMENT_SIZE + 4`. */
  const BufferSize: nat := EemHelper.EemMaxSegmentSize + CrcSize

  /** The value a sender may put in place of a real CRC-32 when bmCRC is 0, in wire order. */
  const Sentinel: seq<Byte> := [0xDE, 0xAD, 0xBE, 0xEF]

  /** `USB_EEM_EP_SEND` and `USB_EEM_EP_RECV`; their numbers are not part of this model. */
  datatype Endpoint = EemEpSend | EemEpRecv

  /** A call the engine makes into code outside the model. */
  datatype UsbCall =
    | RecvArmed(ep: Endpoint, buffer: array<Byte>, capacity: int)      // usb_recv
    | SendIssued(ep: Endpoint, buffer: array<Byte>, length: int)       // usb_send
    | FrameForwarded(buffer: array<Byte>, offset: int, length: int)    // usb_eem_recv_callback

  /** The EEM data packet that carries `payload`: header (length = payload + CRC field, bmCRC = 0,
      bmType = 0), the payload, and the sentinel in place of the CRC. */
  function DataPacket(payload: seq<Byte>): (packet: seq<Byte>)
    requires |payload| + CrcSize < 0x4000
    ensures |packet| == HeaderSize + |payload| + CrcSize
    ensures packet[HeaderSize..HeaderSize + |payload|] == payload
    ensures packet[HeaderSize + |payload|..] == Sentinel
  {
    HeaderBytes(Header(|payload| + CrcSize, false, false)) + payload + Sentinel
  }

  /** The header stored at the front of a data packet declares the payload plus the CRC field,
      a sentinel rather than a real CRC, and a data packet. */
  lemma {:induction false} DataPacketHeader(payload: seq<Byte>)
    requires |payload| + CrcSize < 0x4000
    ensures var packet := DataPacket(payload);
      HeaderAt(packet[0], packet[1]) == Header(|payload| + CrcSize, false, false)
  {
    HeaderBytesRoundTrip(Header(|payload| + CrcSize, false, false));
  }

  /** What the receive-complete callback decides for a transfer of `size` bytes. */
  datatype RecvAction = Rearm | Forward(offset: int, length: int)

  /** The receive-complete decision on the header bytes b0, b1 and the transfer size: a control
      packet (bmType, bit 7 of the second byte) is dropped and the receive re-armed; a data packet
      is forwarded from just after the header up to the last 4 bytes of the transfer. The header's
      length field and the size are not checked. */
  function ReceiveAction(b0: Byte, b1: Byte, size: int): (a: RecvAction)
    ensures a.Rearm? <==> b1 >= 0x80
    ensures a.Forward? ==> a.offset == HeaderSize && a.offset + a.length + CrcSize == size
  {
    if HeaderAt(b0, b1).bmType then Rearm else Forward(HeaderSize, size - HeaderSize - CrcSize)
  }

  /** Only the type bit decides: two headers that agree on bmType are treated alike, whatever their
      length fields and bmCRC say. */
  lemma {:induction false} ReceiveIgnoresLength(h1: Header, h2: Header, size: int)
    requires h1.bmType == h2.bmType
    ensures var x, y := HeaderBytes(h1), HeaderBytes(h2);
      ReceiveAction(x[0], x[1], size) == ReceiveAction(y[0], y[1], size)
  {
    HeaderBytesRoundTrip(h1);
    HeaderBytesRoundTrip(h2);
  }

  /** A control packet never reaches the frame consumer, whatever its length and size. */
  lemma {:induction false} ControlNeverForwarded(length: Length14, bmCRC: bool, size: int)
    ensures var x := HeaderBytes(Header(length, bmCRC, true));
      ReceiveAction(x[0], x[1], size) == Rearm
  {
    HeaderBytesRoundTrip(Header(length, bmCRC, true));
  }

  /** Receiving a data packet as a transfer of exactly its own length forwards exactly its
      payload, and the header's length field minus the CRC field is the payload length. Whatever
      follows the packet in the buffer plays no part. */
  lemma {:induction false} PacketRoundTrip(payload: seq<Byte>, buf: seq<Byte>)
    requires |payload| + CrcSize < 0x4000
    requires DataPacket(payload) <= buf
    ensures ReceiveAction(buf[0], buf[1], |DataPacket(payload)|) == Forward(HeaderSize, |payload|)
    ensures buf[HeaderSize..HeaderSize + |payload|] == payload
    ensures HeaderAt(buf[0], buf[1]).length - CrcSize == |payload|
  {
    var packet := DataPacket(payload);
    DataPacketHeader(payload);
    assert buf[0] == packet[0] && buf[1] == packet[1];
    assert buf[HeaderSize..HeaderSize + |payload|] == packet[HeaderSize..HeaderSize + |payload|];
  }

  /** `memcpy(dst + at, src, |src|)` */
  method MemCopy(dst: array<Byte>, at: nat, src: seq<Byte>)
    requires at + |src| <= dst.Length
    modifies dst
    ensures dst[..] == old(dst[..])[..at] + src + old(dst[..])[at + |src|..]
  {
    forall k | 0 <= k < |src| {
      dst[at + k] := src[k];
    }
  }

  /** The transmit buffer while the copy loop runs: the old header area, the bytes copied so
      far, then the old contents. */
  ghost function Staged(before: seq<Byte>, copied: seq<Byte>): seq<Byte>
    requires HeaderSize + |copied| <= |before|
  {
    before[..HeaderSize] + copied + before[HeaderSize + |copied|..]
  }

  /** Copying one more segment's payload `x` right after the bytes copied so far extends them
      by `x`. */
  lemma {:induction false} CopyStep(before: seq<Byte>, copied: seq<Byte>, x: seq<Byte>)
    requires HeaderSize + |copied| + |x| <= |before|
    ensures var data := HeaderSize + |copied|;
      var buf := Staged(before, copied);
      buf[..data] + x + buf[data + |x|..] == Staged(before, copied + x)
  {
    var data := HeaderSize + |copied|;
    var done := before[..HeaderSize] + copied;
    var rest := before[data..];
    assert (done + rest)[..|done|] == done;
    assert (done + rest)[|done| + |x|..] == rest[|x|..] == before[data + |x|..];
  }

  /** Sentinel after the copied payload, then the header over the header area: the buffer holds
      the data packet followed by its old contents. */
  lemma {:induction false} PacketLayout(before: seq<Byte>, payload: seq<Byte>)
    requires HeaderSize + |payload| + CrcSize <= |before|
    requires |payload| + CrcSize < 0x4000
    ensures var data := HeaderSize + |payload|;
      var copied := Staged(before, payload);
      var framed := copied[..data] + Sentinel + copied[data + CrcSize..];
      HeaderBytes(Header(|payload| + CrcSize, false, false)) + framed[HeaderSize..]
      == DataPacket(payload) + before[|DataPacket(payload)|..]
  {
    var data := HeaderSize + |payload|;
    var copied := Staged(before, payload);
    var framed := copied[..data] + Sentinel + copied[data + CrcSize..];
    assert copied[..data] == before[..HeaderSize] + payload;
    assert copied[data + CrcSize..] == before[data + CrcSize..];
    assert framed[HeaderSize..] == payload + Sentinel + before[data + CrcSize..];
  }

  class Engine {
    /** The receive buffer every incoming transfer lands in. */
    const received: array<Byte>
    /** The buffer outgoing data packets are assembled in. */
    const transmitted: array<Byte>
    /** The transmit-readiness gate: no send is in flight. */
    var canXmit: bool
    /** The calls made so far into the USB stack and the frame consumer, oldest first. */
    ghost var calls: seq<UsbCall>

    ghost predicate Valid()
      reads this
    {
      received.Length == BufferSize && transmitted.Length == BufferSize && received != transmitted
    }

    /** The engine's static storage: both buffers zero-filled, the gate closed, nothing called. */
    constructor ()
      ensures Valid() && fresh(received) && fresh(transmitted)
      ensures received.Length == transmitted.Length == EemHelper.EemMaxSegmentSize + CrcSize
      ensures forall k :: 0 <= k < BufferSize ==> received[k] == 0 && transmitted[k] == 0
      ensures !canXmit && calls == []
    {
      received := new Byte[BufferSize](_ => 0);
      transmitted := new Byte[BufferSize](_ => 0);
      canXmit := false;
      calls := [];
    }

    /** `usb_eem_send`: hands `size` bytes of `data` to the send endpoint. */
    method Send(data: array<Byte>, size: int)
      modifies this`calls
      ensures calls == old(calls) + [SendIssued(EemEpSend, data, size)]
    {
      calls := calls + [SendIssued(EemEpSend, data, size)];
    }

    /** `usb_eem_recv_renew`: arms a receive of the whole receive buffer. */
    method RecvRenew()
      requires Valid()
      modifies this`calls
      ensures calls == old(calls) + [RecvArmed(EemEpRecv, received, BufferSize)]
    {
      calls := calls + [RecvArmed(EemEpRecv, received, received.Length)];
    }

    /** `usb_configuration_callback`: arms a receive and opens the gate, whatever its state. */
    method ConfigurationCallback(config: int)
      requires Valid()
      modifies this`canXmit, this`calls
      ensures canXmit
      ensures calls == old(calls) + [RecvArmed(EemEpRecv, received, BufferSize)]
    {
      RecvRenew();
      canXmit := true;
    }

    /** `usb_eem_ep_send_callback`: the send has completed, so the gate opens; nothing else
        changes. */
    method EpSendCallback(size: int)
      modifies this`canXmit
      ensures canXmit
    {
      canXmit := true;
    }

    /** `usb_eem_ep_recv_callback`: a transfer of `size` bytes has landed in the receive buffer.
        Neither buffer nor the gate changes; the only effect is one call, chosen by
        `ReceiveAction`. */
    method EpRecvCallback(size: int)
      requires Valid()
      modifies this`calls
      ensures calls == old(calls) + [
        match ReceiveAction(received[0], received[1], size)
        case Rearm => RecvArmed(EemEpRecv, received, BufferSize)
        case Forward(offset, length) => FrameForwarded(received, offset, length)]
    {
      var hdr := HeaderAt(received[0], received[1]);
      if hdr.bmType {
        // EEM control packet: discard it
        RecvRenew();
        return;
      }
      calls := calls + [FrameForwarded(received, HeaderSize, size - HeaderSize - CrcSize)];
    }

    /** `usb_eem_can_xmit` */
    method CanXmit() returns (ready: bool)
      ensures ready == canXmit
    {
      ready := canXmit;
    }

    /** The copy loop of `usb_eem_xmit_packet`: walks the chain, copying each segment's payload
        after the header, and stops after the first segment whose `tot_len` equals its `len`.
        Returns `packet_size`, the header plus the bytes copied. */
    method CopySegments(chain: seq<Segment>) returns (packetSize: nat)
      requires Valid()
      requires HeaderSize + TotalLen(Copied(chain)) + CrcSize + HeaderSize <= BufferSize
      modifies transmitted
      ensures packetSize == HeaderSize + TotalLen(Copied(chain))
      ensures transmitted[..] == Staged(old(transmitted[..]), Flatten(Copied(chain)))
    {
      ghost var before := transmitted[..];
      var data := HeaderSize;
      packetSize := HeaderSize;
      ghost var copied: seq<Byte> := [];
      var i := 0;
      CopiedBytesFlatten(chain);
      assert chain[0..] == chain;
      while i < |chain|
        invariant 0 <= i <= |chain|
        invariant CopiedBytes(chain) == copied + CopiedBytes(chain[i..])
        invariant data == packetSize == HeaderSize + |copied|
        invariant transmitted[..] == Staged(before, copied)
      {
        var q := chain[i];
        assert chain[i..][1..] == chain[i + 1..];
        CopyPayload(before, copied, data, q.payload);
        data := data + q.Len();
        packetSize := packetSize + q.Len();
        copied := copied + q.payload;
        if q.IsLast() {
          break;
        }
        i := i + 1;
      }
      assert copied == Flatten(Copied(chain));
    }

    /** One `memcpy` of the copy loop: the payload `x` lands at `data`, right after the bytes
        copied so far, which grow by `x`. */
    method CopyPayload(ghost before: seq<Byte>, ghost copied: seq<Byte>, data: nat, x: seq<Byte>)
      requires Valid() && |before| == BufferSize
      requires data == HeaderSize + |copied| && data + |x| <= BufferSize
      requires transmitted[..] == Staged(before, copied)
      modifies transmitted
      ensures transmitted[..] == Staged(before, copied + x)
    {
      CopyStep(before, copied, x);
      MemCopy(transmitted, data, x);
    }

    /** Appends the fake CRC-32 0xDEADBEEF at `at`, one byte at a time. */
    method AppendSentinel(at: nat)
      requires Valid() && at + CrcSize <= BufferSize
      modifies transmitted
      ensures transmitted[..] == old(transmitted[..])[..at] + Sentinel + old(transmitted[..])[at + CrcSize..]
    {
      transmitted[at] := 0xDE;
      transmitted[at + 1] := 0xAD;
      transmitted[at + 2] := 0xBE;
      transmitted[at + 3] := 0xEF;
    }

    /** Sets the header fields in place for a packet of `packetSize` bytes: bmType = 0, length =
        `packetSize` minus the header (truncated to the 14-bit field), bmCRC = 0. */
    method FillHeader(packetSize: nat)
      requires Valid() && HeaderSize <= packetSize
      modifies transmitted
      ensures transmitted[..] == HeaderBytes(Header((packetSize - HeaderSize) % 0x4000, false, false))
        + old(transmitted[..])[HeaderSize..]
    {
      var hdr := Decode(WordOf(transmitted[0], transmitted[1]));
      hdr := hdr.(bmType := false);  // EEM data packet
      hdr := hdr.(length := (packetSize - HeaderSize) % 0x4000);
      hdr := hdr.(bmCRC := false);  // the CRC-32 field holds the sentinel
      var bytes := HeaderBytes(hdr);
      transmitted[0] := bytes[0];
      transmitted[1] := bytes[1];
    }

    /** `usb_eem_xmit_packet`: with the gate closed, nothing happens. With it open, the payloads of
        the chain up to its end marker are copied after the header, the sentinel follows them,
        the header is filled in, the gate closes and one send is issued. The length sent is that
        of the packet plus another header's worth of bytes (see `SendLengthExceedsPacket`).
        Nothing bounds the copy, so the caller must keep the send within the buffer. */
    method XmitPacket(chain: seq<Segment>)
      requires Valid()
      requires canXmit ==> HeaderSize + TotalLen(Copied(chain)) + CrcSize + HeaderSize <= BufferSize
      modifies this`canXmit, this`calls, transmitted
      ensures !canXmit
      ensures !old(canXmit) ==> transmitted[..] == old(transmitted[..]) && calls == old(calls)
      ensures old(canXmit) ==>
        var payload := Flatten(Copied(chain));
        && |payload| + CrcSize < 0x4000
        && transmitted[..] == DataPacket(payload) + old(transmitted[..])[|DataPacket(payload)|..]
        && calls == old(calls) + [SendIssued(EemEpSend, transmitted, SendLength(|DataPacket(payload)|))]
    {
      if !canXmit {
        return;
      }
      ghost var before := transmitted[..];
      var packetSize := CopySegments(chain);
      ghost var payload := Flatten(Copied(chain));
      AppendSentinel(packetSize);
      packetSize := packetSize + CrcSize;
      assert (packetSize - HeaderSize) % 0x4000 == packetSize - HeaderSize;
      FillHeader(packetSize);
      PacketLayout(before, payload);
      canXmit := false;
      Send(transmitted, SendLength(packetSize));
    }
  }

  /** The length `usb_eem_xmit_packet` hands to the send endpoint for a packet of `packetSize`
      bytes: `packet_size + sizeof(header)`, where `packet_size` already counts the header. */
  function SendLength(packetSize: nat): (n: nat)
    ensures n > packetSize
  {
    packetSize + HeaderSize
  }

  /** On the wire, a data packet's first byte is the low byte of its length field and its second
      byte the high byte, with the bmCRC and bmType bits clear. */
  lemma {:induction false} DataPacketHeaderBytes(payload: seq<Byte>)
    requires |payload| + CrcSize < 0x4000
    ensures var n := |payload| + CrcSize;
      DataPacket(payload)[0] == n % 0x100 && DataPacket(payload)[1] == n / 0x100 < 0x40
  {
    var header := HeaderBytes(Header(|payload| + CrcSize, false, false));
    DataHeaderBytes(|payload| + CrcSize);
    assert DataPacket(payload) == header + payload + Sentinel;
  }

  /** A single 46-byte segment goes out as a 52-byte packet whose header declares 50 bytes
      (payload and CRC field), with both flags clear; the send covers 54 bytes. */
  lemma {:induction false} SingleSegmentPacket(frame: seq<Byte>)
    requires |frame| == 46
    ensures Flatten(Copied([Segment(frame, 46)])) == frame
    ensures |DataPacket(frame)| == 52
    ensures DataPacket(frame)[0] == 50 && DataPacket(frame)[1] == 0
    ensures SendLength(|DataPacket(frame)|) == 54
  {
    DataPacketHeaderBytes(frame);
    var chain := [Segment(frame, 46)];
    assert Copied(chain) == chain;
    FlattenSnoc([], chain[0]);
    assert [] + [chain[0]] == chain;
  }

  /** As written, the send covers two bytes more than the packet. A receiver that takes the whole
      send as one transfer, as this engine's own receive path would, forwards the payload followed
      by the first two sentinel bytes. */
  lemma {:induction false} SendLengthExceedsPacket(payload: seq<Byte>, trailing: seq<Byte>)
    requires |payload| + CrcSize < 0x4000
    ensures var packet := DataPacket(payload);
      var buf := packet + trailing;
      && SendLength(|packet|) == |packet| + HeaderSize
      && ReceiveAction(buf[0], buf[1], SendLength(|packet|)) == Forward(HeaderSize, |payload| + HeaderSize)
      && buf[HeaderSize..HeaderSize + |payload| + HeaderSize] == payload + Sentinel[..HeaderSize]
  {
    var packet := DataPacket(payload);
    var buf := packet + trailing;
    DataPacketHeader(payload);
    assert buf[0] == packet[0] && buf[1] == packet[1];
    assert packet[HeaderSize + |payload|..] == Sentinel;
    assert buf[HeaderSize..HeaderSize + |payload| + HeaderSize]
      == packet[HeaderSize..HeaderSize + |payload|] + packet[HeaderSize + |payload|..][..HeaderSize];
  }

  /** As written, the buffers hold `EEM_MAX_SEGMENT_SIZE` plus the CRC field but not the header:
      the packet of a largest-size frame is two bytes longer than the transmit buffer. */
  lemma {:induction false} MaxSegmentOverflowsBuffer(payload: seq<Byte>)
    requires |payload| == EemHelper.EemMaxSegmentSize
    ensures |DataPacket(payload)| == BufferSize + HeaderSize
  {
  }

  /** A buffer sized for header, largest frame and CRC field. */
  const PacketBufferSize: nat := HeaderSize + EemHelper.EemMaxSegmentSize + CrcSize

  /** With the header counted, the packet of every frame up to the largest segment size fits. */
  lemma {:induction false} MaxSegmentFitsPacketBuffer(payload: seq<Byte>)
    requires |payload| <= EemHelper.EemMaxSegmentSize
    ensures |DataPacket(payload)| <= PacketBufferSize
  {
  }

  /** One engine transmits a chain; its packet, as long as its header says, arrives as one
      transfer in another engine's receive buffer; that engine forwards exactly the bytes of the
      chain up to its end marker. */
  method LoopbackRoundTrip(tx: Engine, rx: Engine, chain: seq<Segment>)
    requires tx.Valid() && rx.Valid() && tx != rx && tx.transmitted != rx.received
    requires tx.canXmit
    requires HeaderSize + TotalLen(Copied(chain)) + CrcSize + HeaderSize <= BufferSize
    modifies tx, tx.transmitted, rx`calls, rx.received
    ensures rx.calls == old(rx.calls) + [FrameForwarded(rx.received, HeaderSize, TotalLen(Copied(chain)))]
    ensures rx.received[HeaderSize..HeaderSize + TotalLen(Copied(chain))] == Flatten(Copied(chain))
  {
    tx.XmitPacket(chain);
    ghost var payload := Flatten(Copied(chain));
    ghost var packet := DataPacket(payload);
    ghost var sent := tx.transmitted[..];
    assert sent[..|packet|] == packet;
    PacketRoundTrip(payload, sent);
    var hdr := HeaderAt(tx.transmitted[0], tx.transmitted[1]);
    var size := HeaderSize + hdr.length;
    assert size == |packet|;
    assert tx.transmitted[..size] == sent[..|packet|];
    DeliverTransfer(rx, tx.transmitted[..size], payload);
    assert |payload| == TotalLen(Copied(chain));
  }

  /** The bus side of one bulk OUT transfer carrying a data packet: the bytes land at the start
      of `rx`'s receive buffer and its receive-complete callback runs with their count; `rx`
      forwards the payload. */
  method DeliverTransfer(rx: Engine, transfer: seq<Byte>, ghost payload: seq<Byte>)
    requires rx.Valid()
    requires HeaderSize + |payload| + CrcSize <= BufferSize
    requires transfer == DataPacket(payload)
    modifies rx`calls, rx.received
    ensures rx.calls == old(rx.calls) + [FrameForwarded(rx.received, HeaderSize, |payload|)]
    ensures rx.received[HeaderSize..HeaderSize + |payload|] == payload
  {
    ghost var stale := rx.received[..];
    MemCopy(rx.received, 0, transfer);
    assert stale[..0] == [];
    assert rx.received[..] == transfer + stale[|transfer|..];
    PacketRoundTrip(payload, rx.received[..]);
    rx.EpRecvCallback(|transfer|);
  }
}
