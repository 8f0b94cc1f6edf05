/** The CDC-EEM descriptor group built by the `EEM_DESCRIPTOR` macro: one data interface with two
    bulk endpoints. Descriptor sizes and descriptor-type codes come from the USB helper header,
    which is not part of this model; they enter as a `UsbLayout` parameter. */
module EemHelper {
  import opened UsbTypes

  /** Largest bulk packet on a full-speed bus. */
  const UsbFsMaxPacketSize: Word := 64
  const EemMaxUsbDataPacketSize: Word := UsbFsMaxPacketSize
  const EemMaxUsbNotifyPacketSize: Word := UsbFsMaxPacketSize
  /** Largest Ethernet frame (without its FCS) an EEM packet carries. */
  const EemMaxSegmentSize: nat := 1514

  /** Class codes of the USB Communications Device Class and its EEM subclass. */
  const CommunicationsClass: Byte := 0x02
  const EemSubclass: Byte := 0x0C
  const EemProtocol: Byte := 0x07
  /** Transfer type "bulk" in bits 1..0 of an endpoint's bmAttributes (USB 2.0, table 9-13). */
  const BulkTransferType: Byte := 0x02

  /** What the USB helper header supplies: `sizeof` of the two descriptor structs and the
      `USB_INTERFACE_DESCRIPTOR` / `USB_ENDPOINT_DESCRIPTOR` type codes. */
  datatype UsbLayout = UsbLayout(
    interfaceDescriptorSize: Byte,
    endpointDescriptorSize: Byte,
    interfaceDescriptorType: Byte,
    endpointDescriptorType: Byte)

  datatype InterfaceDescriptor = InterfaceDescriptor(
    bLength: Byte,
    bDescriptorType: Byte,
    bInterfaceNumber: Byte,
    bAlternateSetting: Byte,
    bNumEndpoints: Byte,
    bInterfaceClass: Byte,
    bInterfaceSubclass: Byte,
    bInterfaceProtocol: Byte,
    iInterface: Byte)

  datatype EndpointDescriptor = EndpointDescriptor(
    bLength: Byte,
    bDescriptorType: Byte,
    bEndpointAddress: Byte,
    bmAttributes: Byte,
    wMaxPacketSize: Word,
    bInterval: Byte)

  /** `struct eem_interface`: the interface descriptor, then `ep_in`, then `ep_out`. */
  datatype EemInterface = EemInterface(
    datInterface: InterfaceDescriptor,
    epIn: EndpointDescriptor,
    epOut: EndpointDescriptor)

  /** The endpoint descriptors in the order the record lays them out. */
  function Endpoints(d: EemInterface): seq<EndpointDescriptor>
  {
    [d.epIn, d.epOut]
  }

  /** An EEM data interface: Communications class, EEM subclass and protocol, only the default
      alternate setting, no string descriptor. */
  predicate IsEemDataInterface(i: InterfaceDescriptor, layout: UsbLayout)
  {
    && i.bLength == layout.interfaceDescriptorSize
    && i.bDescriptorType == layout.interfaceDescriptorType
    && i.bAlternateSetting == 0
    && i.bInterfaceClass == CommunicationsClass
    && i.bInterfaceSubclass == EemSubclass
    && i.bInterfaceProtocol == EemProtocol
    && i.iInterface == 0
  }

  /** A bulk endpoint as a full-speed device must describe it: transfer type bulk with the
      reserved attribute bits clear, a maximum packet size of 8, 16, 32 or 64 bytes, and no
      polling interval. */
  predicate IsFullSpeedBulkEndpoint(e: EndpointDescriptor, layout: UsbLayout)
  {
    && e.bLength == layout.endpointDescriptorSize
    && e.bDescriptorType == layout.endpointDescriptorType
    && e.bmAttributes % 4 == BulkTransferType
    && e.bmAttributes / 4 == 0
    && e.wMaxPacketSize in {8, 16, 32, 64}
    && e.bInterval == 0
  }

  /** `EEM_DESCRIPTOR(DATA_ITF, DATAOUT_EP, DATAIN_EP)` */
  function EemDescriptor(layout: UsbLayout, dataItf: Byte, dataOutEp: Byte, dataInEp: Byte): (d: EemInterface)
    ensures IsEemDataInterface(d.datInterface, layout)
    ensures d.datInterface.bInterfaceNumber == dataItf
    ensures d.datInterface.bNumEndpoints as int == |Endpoints(d)|
    ensures forall e <- Endpoints(d) ::
      IsFullSpeedBulkEndpoint(e, layout) && e.wMaxPacketSize == UsbFsMaxPacketSize
    // As written: the field named ep_in carries the OUT address and ep_out the IN address.
    ensures d.epIn.bEndpointAddress == dataOutEp && d.epOut.bEndpointAddress == dataInEp
  {
    EemInterface(
      InterfaceDescriptor(
        bLength := layout.interfaceDescriptorSize,
        bDescriptorType := layout.interfaceDescriptorType,
        bInterfaceNumber := dataItf,
        bAlternateSetting := 0x00,
        bNumEndpoints := 0x02,
        bInterfaceClass := 0x02,
        bInterfaceSubclass := 0x0C,
        bInterfaceProtocol := 0x07,
        iInterface := 0x00),
      EndpointDescriptor(
        bLength := layout.endpointDescriptorSize,
        bDescriptorType := layout.endpointDescriptorType,
        bEndpointAddress := dataOutEp,
        bmAttributes := 0x02,
        wMaxPacketSize := EemMaxUsbDataPacketSize,
        bInterval := 0x00),
      EndpointDescriptor(
        bLength := layout.endpointDescriptorSize,
        bDescriptorType := layout.endpointDescriptorType,
        bEndpointAddress := dataInEp,
        bmAttributes := 0x02,
        wMaxPacketSize := EemMaxUsbDataPacketSize,
        bInterval := 0x00))
  }
}
