/** Values shared by every part of the model: bytes, USB identifiers, the
    module's configuration and the device handles the hotplug subsystem
    passes in. */
module UsbTypes {

  /** An unsigned 8-bit value (a C `char` compared as `unsigned char`). */
  type Byte = b: int | 0 <= b < 0x100

  /** An unsigned 16-bit value (`unsigned short`, `__le16` read in host order). */
  type U16 = x: int | 0 <= x < 0x1_0000

  /** A Unicode code point, as a UTF-16 string decodes to: a surrogate
      pair gives one value above 0xFFFF, an unpaired surrogate keeps its
      own value in 0xD800..0xDFFF. */
  type CodePoint = c: int | 0 <= c <= 0x10FFFF

  /** The identity of a `struct usb_device *`: two handles are the same
      pointer exactly when their ids are equal. */
  type DeviceId = nat

  datatype Option<+T> = None | Some(value: T)

  /** No byte of `s` is the NUL terminator. */
  predicate NoNul(s: seq<Byte>) {
    forall i :: 0 <= i < |s| ==> s[i] != 0
  }

  /** The `serial` module parameter: the text held in `char serial[128]`,
      which `module_param_string` keeps NUL-terminated, so at most 127
      bytes and none of them NUL. The empty text means "ignore serial". */
  type SerialParam = s: seq<Byte> | |s| < 128 && NoNul(s) witness []

  /** The module parameters `vendor`, `product` and `serial`, fixed for the
      lifetime of the module. */
  datatype Config = Config(vendor: U16, product: U16, serial: SerialParam)

  /** What the model needs of a `struct usb_device`: its identity, the
      descriptor fields `idVendor`, `idProduct` and `iSerialNumber`, and
      the characters of its serial string descriptor, decoded from UTF-16
      (`None` when reading the descriptor fails). */
  datatype Device = Device(
    id: DeviceId,
    idVendor: U16,
    idProduct: U16,
    iSerialNumber: Byte,
    serialText: Option<seq<CodePoint>>)

  /** A `struct usb_device *` as a callback receives it: possibly NULL. */
  datatype Handle = Null | Ptr(dev: Device)

  /** The pointer value of a handle, `None` standing for NULL. */
  function HandleId(h: Handle): (r: Option<DeviceId>)
    ensures r.None? <==> h.Null?
    ensures h.Ptr? ==> r.value == h.dev.id
  {
    match h
    case Null => None
    case Ptr(d) => Some(d.id)
  }
}
