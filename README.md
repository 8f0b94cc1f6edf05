# CDC-EEM framing engine of D21eem, in Dafny

This project models the USB CDC Ethernet Emulation Model (EEM) framing engine of D21eem. D21eem
is USB-to-Ethernet firmware for SAMD21 microcontrollers. The model covers two source files.

`usb/usb_eem.c` is the engine, modelled in `eem_engine.dfy` as the class `EemEngine.Engine`:

- **State.** Two static 1518-byte buffers, `received` and `transmitted`, are `const` array fields.
  The flag `can_xmit` is the field `canXmit`.
- **Callbacks and entry points.** Each C callback and entry point becomes a method that changes
  exactly what the C code changes.
- **External calls.** The engine calls `usb_recv`, `usb_send` and the network stack's
  `usb_eem_recv_callback`, which are outside the model. Each such call is appended to a ghost
  log, `calls`. Contracts can therefore say that exactly one send was issued, or that nothing was
  called.
- **Transmit path.** `usb_eem_xmit_packet` writes `transmitted` in place, as in the C code. It
  copies the lwIP segment chain segment by segment (`CopySegments`), appends the 0xDEADBEEF
  sentinel (`AppendSentinel`), then fills in the header fields (`FillHeader`).
- **Transmit result.** `XmitPacket` states the whole resulting buffer as `DataPacket(payload)`
  followed by the untouched old bytes. `DataPacket` is a pure function whose properties are
  proved separately.
- **Receive path.** The receive-complete decision is the pure function `ReceiveAction`.
  `EpRecvCallback` is proved against it.

`eem_header.dfy` models the 16-bit packet header `struct cdc_eem_packet_header`. It holds the
length in bits 0-13, bmCRC in bit 14 and bmType in bit 15, as in section 5.1 of the USB CDC
Subclass Specification for Ethernet Emulation Model Devices, rev. 1.0. The model packs and unpacks
it with division and remainder by powers of two and stores it little-endian.

`eem_chain.dfy` models the lwIP buffer chain (`struct pbuf`) as a sequence of segments. `Copied`
is the part of the chain the copy loop visits.

`usb/eemhelper.h` is modelled in `eem_helper.dfy`:

- the size constants, with `EemMaxSegmentSize` = 1514 sizing the engine's buffers;
- the record `struct eem_interface`, laid out as the interface descriptor, then `ep_in`, then
  `ep_out`;
- the `EEM_DESCRIPTOR` macro, as the function `EemDescriptor`.

Integers are unbounded; bytes and 16-bit words are subset types of `int`.

## Model

| member | source | states |
|---|---|---|
| EemHeader.Encode | usb/usb_eem.c:74-79 | The packed header word is below 2^14 exactly when both flag bits are clear. |
| EemHeader.Decode | usb/usb_eem.c:74-79 | Re-encoding the decoded fields of any 16-bit word gives back that word, so the three fields together cover all 16 bits. |
| EemHeader.DecodeEncode | usb/usb_eem.c:74-79 | Every header survives encoding then decoding. |
| EemHeader.WordOf | usb/usb_eem.c:83 | The word read from two consecutive bytes has the first byte as its low byte and the second as its high byte (little-endian). |
| EemHeader.HeaderAt | usb/usb_eem.c:83-87 | Reading the header through a pointer to the buffer's first two bytes gives the following fields. length is byte0 plus the low 6 bits of byte1 times 256. bmCRC is bit 6 of byte1. bmType is set exactly when byte1 >= 0x80. |
| EemHeader.HeaderBytes | usb/usb_eem.c:132-135 | A header occupies two bytes. |
| EemHeader.HeaderBytesRoundTrip | usb/usb_eem.c:74-79 | Storing a header in two bytes and reading it back gives the same header. |
| EemHeader.DataHeaderBytes | usb/usb_eem.c:133-135 | A data header with length n and both flags clear is stored as byte0 = n & 0xFF and byte1 = n >> 8, with the top two bits of byte1 clear. |
| EemChain.Segment.IsLast | usb/usb_eem.c:125 | The copy loop's end-of-chain test: a segment ends the copy exactly when its `tot_len` equals its `len`. |
| EemChain.Copied | usb/usb_eem.c:120-126 | The segments the copy loop visits, stated by `CopiedSpec`: a prefix of the chain that ends at the first segment with `tot_len == len`, or at the end of the chain. |
| EemChain.Flatten | usb/usb_eem.c:120-125 | Laying the segments' payloads end to end gives as many bytes as the sum of their `len`. |
| EemChain.CopiedSpec | usb/usb_eem.c:120-126 | The segments the copy loop visits form a prefix of the chain. None of them except possibly the last has `tot_len == len`. The loop stops only at such a segment or at the end of the chain. |
| EemChain.CopiedBytesFlatten | usb/usb_eem.c:120-125 | Gathering payloads from the front, as the loop does, gives the flattened visited segments. |
| EemChain.WellFormedCopiesAll | usb/usb_eem.c:120-126 | On a chain whose `tot_len` fields are consistent, stopping at the first end-marked segment loses no bytes. The copied length is the head's `tot_len`. |
| EemHelper.EemDescriptor | usb/eemhelper.h:46-80 | The interface has number `DATA_ITF`, alternate setting 0, 2 endpoints, class/subclass/protocol 0x02/0x0C/0x07 and `iInterface` 0. Both endpoints are bulk (bmAttributes 0x02) with `bInterval` 0 and `wMaxPacketSize` 64. `ep_in` carries `DATAOUT_EP` and `ep_out` carries `DATAIN_EP`, reversed from what the names suggest, as written. |
| EemEngine.DataPacket | usb/usb_eem.c:118-135 | A data packet is N + 6 bytes long. The payload is at offset 2, and the sentinel DE AD BE EF follows it. |
| EemEngine.DataPacketHeader | usb/usb_eem.c:132-135 | The header of a data packet reads back as length N + 4 with bmCRC and bmType clear. |
| EemEngine.DataPacketHeaderBytes | usb/usb_eem.c:132-135 | A data packet's first two bytes are (N+4) & 0xFF and (N+4) >> 8, with the flag bits clear. |
| EemEngine.ReceiveAction | usb/usb_eem.c:81-95 | A transfer is dropped and re-armed exactly when bit 7 of its second byte (bmType) is set. Otherwise it is forwarded at offset 2 with length `size - 6`. |
| EemEngine.ReceiveIgnoresLength | usb/usb_eem.c:81-95 | Two headers with the same bmType get the same treatment, whatever their length fields and bmCRC say. |
| EemEngine.ControlNeverForwarded | usb/usb_eem.c:87-92 | A control packet is never forwarded, whatever its length, bmCRC and transfer size. |
| EemEngine.PacketRoundTrip | usb/usb_eem.c:81-95 | A buffer starting with the data packet of a payload, received as a transfer of the packet's length, is forwarded at offset 2 with exactly the payload's length. The forwarded bytes are the payload. The header's length minus 4 is the payload length. |
| EemEngine.MemCopy | usb/usb_eem.c:122 | The destination holds the source bytes at the offset. Every other byte is unchanged. |
| EemEngine.Engine.constructor | usb/usb_eem.c:34-37 | Both buffers have `EEM_MAX_SEGMENT_SIZE + 4` bytes, are distinct and are zero-filled. The gate is closed and nothing has been called. |
| EemEngine.Engine.Send | usb/usb_eem.c:48-51 | Exactly one send is issued, on the send endpoint, with the given buffer and length. |
| EemEngine.Engine.RecvRenew | usb/usb_eem.c:53-56 | Exactly one receive is armed, on the receive endpoint, into `received` with capacity 1518. |
| EemEngine.Engine.ConfigurationCallback | usb/usb_eem.c:58-64 | The gate is open whatever its prior value, and exactly one receive has been armed. The buffers are unchanged. |
| EemEngine.Engine.EpSendCallback | usb/usb_eem.c:67-72 | The gate is open whatever its prior value. Nothing else changes and nothing is called. |
| EemEngine.Engine.EpRecvCallback | usb/usb_eem.c:81-95 | Exactly one call is made, as `ReceiveAction` of the first two received bytes and the size decides: a re-arm or a forward of (offset 2, size - 6). The buffers and the gate are unchanged. |
| EemEngine.Engine.CanXmit | usb/usb_eem.c:104-107 | Returns the gate and changes nothing. |
| EemEngine.Engine.CopySegments | usb/usb_eem.c:118-126 | Returns 2 plus the summed `len` of the visited segments. `transmitted` then holds, after the header area, the visited segments' payloads in chain order. The header area and all later bytes are unchanged. |
| EemEngine.Engine.CopyPayload | usb/usb_eem.c:122-124 | One segment's payload lands right after the bytes copied so far, which grow by that payload. |
| EemEngine.Engine.AppendSentinel | usb/usb_eem.c:128-130 | DE AD BE EF is written at the given offset. No other byte changes. |
| EemEngine.Engine.FillHeader | usb/usb_eem.c:132-135 | The first two bytes become the header with length `packet_size - 2` (truncated to 14 bits) and both flags clear. No other byte changes. |
| EemEngine.Engine.XmitPacket | usb/usb_eem.c:109-139 | With the gate closed: the buffer and the call log are unchanged, and the gate stays closed. With the gate open: `transmitted` is `DataPacket` of the visited segments' payloads followed by its old bytes, and the gate is closed. Exactly one send of `SendLength` of the packet length is issued from `transmitted`. |
| EemEngine.SendLength | usb/usb_eem.c:138 | The send always covers more than the packet. |
| EemEngine.SingleSegmentPacket | usb/usb_eem.c:118-138 | A single 46-byte segment goes out as a 52-byte packet. Its header bytes are 50 and 0, and the send covers 54 bytes. |
| EemEngine.SendLengthExceedsPacket | usb/usb_eem.c:138 | As written, the send length is the packet length plus 2. A receive of the whole send forwards the payload plus the first two sentinel bytes. |
| EemEngine.MaxSegmentOverflowsBuffer | usb/usb_eem.c:34-35 | The packet of an `EEM_MAX_SEGMENT_SIZE` frame is 2 bytes longer than the buffers. |
| EemEngine.MaxSegmentFitsPacketBuffer | usb/usb_eem.c:34-35 | A buffer of header + `EEM_MAX_SEGMENT_SIZE` + CRC holds the packet of every frame up to the maximum segment size. |
| EemEngine.LoopbackRoundTrip | usb/usb_eem.c:81-139 | One engine transmits a chain. The packet, cut to the length its header declares, arrives in a second engine's receive buffer. The second engine then forwards exactly the payload bytes of the visited segments, at offset 2 and with their length. |
| EemEngine.DeliverTransfer | usb/usb_eem.c:81-95 | A transfer carrying a data packet that lands in the receive buffer is forwarded with exactly its payload's length, and the forwarded bytes are the payload. |

## Left out

- `usb_eem_init` (usb/usb_eem.c:42-46) only registers the two callbacks with the USB stack. It has no state of its own; the callbacks are methods that a caller invokes directly.
- `usb_class_handle_request` (usb/usb_eem.c:97-102) reads one field into an unused local and always returns false. It has no state and nothing to state beyond its constant result.
- The USB primitives `usb_recv` and `usb_send`, and the frame consumer `usb_eem_recv_callback`, are outside the model. Each call to them is recorded in the ghost log `calls`, and their effects are not modelled.
- Endpoint numbers `USB_EEM_EP_SEND`/`USB_EEM_EP_RECV` come from `usb_eem.h`, which is not part of this model. They are the two constructors of `Endpoint`.
- Interrupt context, serialisation of callbacks and `alignas(4)` are concurrency and memory-layout concerns. Every method runs to completion.
- No CRC-32 is computed. The sentinel 0xDEADBEEF stands in for it, as in the code.
- The byte-level layout of `struct interface_descriptor` and `struct endpoint_descriptor`, `USB_UINT16`, and the descriptor-type codes come from `usbhelper.h`, which is not part of this model. The two descriptor sizes and the two descriptor-type codes enter `EemDescriptor` as the `UsbLayout` parameter.
- `USB_UINT16` is taken as the identity: `wMaxPacketSize` holds the plain value 64. The byte order in which the macro stores that 16-bit field is not modelled.
- The C compiler's bit-field allocation is not modelled. The header layout is written with division and remainder by powers of two, in the little-endian, low-bits-first order the standard fixes.
- `struct pbuf` is a sequence of `Segment` values. `next` pointers become indexing. Aliasing between a segment's payload and the engine's buffers is not modelled.
- EemEngine.Engine.XmitPacket: the C code checks no bound. The model requires N + 8 ≤ 1518 for an open gate, which covers both the writes (N + 6 bytes) and the send range (N + 8 bytes). What happens beyond the buffer is undefined behaviour in C and is not modelled.
- EemEngine.Engine.EpRecvCallback: `size - sizeof(header) - 4` is computed in C with unsigned `size_t`, then converted to the consumer's parameter type (declared in `usb_eem.h`, which is not part of this model). The model records the mathematical value `size - 6`, which differs from the C value only when `size < 6`. Nothing checks `size >= 6`, and the model adds no precondition.
- EemEngine.Engine.EpRecvCallback: the forwarded bytes are recorded as (buffer, offset, length), not copied out. Their contents are what `received` holds; `DeliverTransfer` states them for a data packet.
- EemEngine.SendLength: its own contract states only that the send covers more than the packet. The exact length, 2 more than the packet, is stated by `SendLengthExceedsPacket`.

## Findings

Nothing here was executed. Each row is what the proofs show about the code as written. The engine
(`XmitPacket`) keeps the as-written behaviour, because the model follows the code. The round trip
(`LoopbackRoundTrip`, `DeliverTransfer`) takes a transfer of exactly the packet length and uses the
corrected `PacketRoundTrip`.

| source | as written | input that shows it | evidently intended | confidence | as-written member | corrected member |
|---|---|---|---|---|---|---|
| usb/usb_eem.c:138 | `usb_eem_send(transmitted, packet_size + sizeof(header))`, where `packet_size` already counts the header and the CRC field. The send covers N + 8 bytes, 2 more than the packet. | A 46-byte frame: the packet is 52 bytes, but 54 are sent. A receiver that takes the send as one transfer forwards 48 bytes: the frame plus DE AD. | Send `packet_size` bytes (N + 6, header plus `length`). Receiving that transfer forwards exactly the frame. The header written at usb/usb_eem.c:134 declares `length = packet_size - 2`, so the packet is the header plus `length`, N + 6 bytes. The 2 further bytes the send covers are never written by this call: they are left over from earlier contents of `transmitted`. | medium, not executed | EemEngine.SendLengthExceedsPacket | EemEngine.PacketRoundTrip |
| usb/usb_eem.c:34-35 | Buffers of `EEM_MAX_SEGMENT_SIZE + 4` bytes: room for the frame and the CRC field, but not the 2-byte header. | A 1514-byte frame: its packet needs 1520 bytes, but `transmitted` has 1518. | A buffer of header + `EEM_MAX_SEGMENT_SIZE` + CRC (1520 bytes) holds every frame's packet. | medium, not executed | EemEngine.MaxSegmentOverflowsBuffer | EemEngine.MaxSegmentFitsPacketBuffer |
