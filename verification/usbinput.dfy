/** What the two USB input drivers (usb/mymouse_usb_input/mymouse_usb.c and
    usb/laser_prsnt_input_usb/laserp.c) share: the completion-status switch
    of their interrupt handlers, the input events they report, and their
    probe routines, which are line for line the same code (the endpoint
    check, the allocations with their error unwind, the bounded name and
    physical-path strings, the interrupt URB's transfer length). */
module UsbInput {
  import opened Errno
  import opened CString
  import opened Resources

  datatype Option<T> = None | Some(value: T)

  /** Event types and codes of include/uapi/linux/input-event-codes.h. */
  const EV_SYN: nat := 0
  const EV_KEY: nat := 1
  const EV_REL: nat := 2
  const REL_X: nat := 0
  const REL_Y: nat := 1
  const KEY_UP: nat := 103
  const KEY_PAGEUP: nat := 104
  const KEY_DOWN: nat := 108
  const KEY_PAGEDOWN: nat := 109
  const BTN_LEFT: nat := 0x110
  const BTN_RIGHT: nat := 0x111
  const BTN_MIDDLE: nat := 0x112

  /** One input_report_key, input_report_rel or input_sync. A key's value is
      normalised to 0 or 1 by input_report_key. */
  datatype InputEvent = Key(code: nat, pressed: bool) | Rel(code: nat, delta: int) | Sync

  /** The (type, code) pairs a device declared with set_bit in probe. */
  datatype Capability = Cap(evType: nat, code: nat)

  /** Every key or relative event in `events` is one the device declared. */
  predicate Declared(events: seq<InputEvent>, caps: set<Capability>)
  {
    forall i :: 0 <= i < |events| ==>
      (events[i].Key? ==> Cap(EV_KEY, events[i].code) in caps) &&
      (events[i].Rel? ==> Cap(EV_REL, events[i].code) in caps)
  }

  /** What a completion handler does with the URB's status. */
  datatype Completion = Terminated | Resubmitted

  /** The status switch of both completion handlers: an unlinked, vanished
      or shut-down URB is dropped; success and every other error resubmit
      the URB and go on to report the buffer. */
  function Complete(status: int): (c: Completion)
    ensures c == Terminated <==> status == -ECONNRESET || status == -ENOENT || status == -ESHUTDOWN
  {
    if status == 0 then Resubmitted
    else if status == -ECONNRESET || status == -ENOENT || status == -ESHUTDOWN then Terminated
    else Resubmitted
  }

  /** What one run of a completion handler does: whether it resubmits the
      URB, and the events it reports (ending with input_sync). A failed
      resubmission is only logged, so reporting goes on regardless. */
  datatype Handled = Handled(resubmit: bool, events: seq<InputEvent>)

  /** Both completion handlers: the status switch, then the report. */
  function Handle(status: int, report: seq<InputEvent>): (h: Handled)
    ensures h.resubmit <==> Complete(status) == Resubmitted
    ensures h.resubmit ==> h.events == report
    ensures !h.resubmit ==> h.events == []
  {
    if Complete(status) == Terminated then Handled(false, []) else Handled(true, report)
  }

  /** The key `code` is reported as pressed. */
  predicate Pressed(events: seq<InputEvent>, code: nat)
  {
    Key(code, true) in events
  }

  /** A report byte read through `signed char *`. */
  function S8(b: bv8): (v: int)
    ensures -128 <= v < 128
    ensures v >= 0 <==> b < 0x80
    ensures (v + 256) % 256 == b as int
  {
    if b < 0x80 then b as int else b as int - 256
  }

  /** An endpoint descriptor's address and attributes bytes. */
  datatype Endpoint = Endpoint(address: bv8, attributes: bv8)

  const USB_DIR_IN: bv8 := 0x80
  const USB_ENDPOINT_XFER_INT: bv8 := 3

  /** usb_endpoint_is_int_in: the direction bit says IN and the transfer
      type bits say interrupt. */
  predicate IsIntIn(ep: Endpoint)
  {
    ep.address & 0x80 == USB_DIR_IN && ep.attributes & 3 == USB_ENDPOINT_XFER_INT
  }

  /** The interface check at the head of both probes. */
  function CheckInterface(endpoints: seq<Endpoint>): (r: int)
    ensures r == 0 <==> |endpoints| == 1 && IsIntIn(endpoints[0])
    ensures r != 0 ==> r == -ENODEV
  {
    if |endpoints| != 1 then -ENODEV
    else if !IsIntIn(endpoints[0]) then -ENODEV
    else 0
  }

  /** The interrupt URB's transfer length: the endpoint's maximum packet
      size, but no more than the 8-byte DMA buffer. */
  function TransferLength(maxp: nat): (n: nat)
    ensures n <= 8 && n <= maxp
    ensures n == 8 || n == maxp
  {
    if maxp > 8 then 8 else maxp
  }

  /** A value of an le16 descriptor field. */
  type U16 = x: nat | x < 0x1_0000

  function HexDigit(v: nat): (c: char)
    requires v < 16
  {
    "0123456789abcdef"[v]
  }

  function HexValue(c: char): (v: nat)
  {
    if '0' <= c <= '9' then c as nat - '0' as nat
    else if 'a' <= c <= 'f' then c as nat - 'a' as nat + 10
    else 0
  }

  lemma HexDigitValue(v: nat)
    requires v < 16
    ensures HexValue(HexDigit(v)) == v && HexDigit(v) != NUL
  {
  }

  /** "%04x". */
  function Hex4(v: U16): (s: seq<char>)
    ensures |s| == 4
  {
    var q := v / 16 / 16;
    [HexDigit(q / 16), HexDigit(q % 16), HexDigit(v / 16 % 16), HexDigit(v % 16)]
  }

  /** The four digits name the value, most significant first, and none is
      a terminator. */
  lemma Hex4RoundTrip(v: U16)
    ensures var s := Hex4(v);
      NoNul(s) && HexValue(s[0]) * 4096 + HexValue(s[1]) * 256 + HexValue(s[2]) * 16 + HexValue(s[3]) == v
  {
    var q := v / 16 / 16;
    HexDigitValue(q / 16);
    HexDigitValue(q % 16);
    HexDigitValue(v / 16 % 16);
    HexDigitValue(v % 16);
  }

  lemma Hex4NoNul(v: U16)
    ensures NoNul(Hex4(v))
  {
    var q := v / 16 / 16;
    HexDigitValue(q / 16);
    HexDigitValue(q % 16);
    HexDigitValue(v / 16 % 16);
    HexDigitValue(v % 16);
  }

  /** The fallback name, "USB <unknown device> %04x:%04x". */
  function UnknownName(vendor: U16, product: U16): (s: seq<char>)
    ensures |s| == 30
  {
    "USB <unknown device> " + Hex4(vendor) + ":" + Hex4(product)
  }

  lemma UnknownNameNoNul(vendor: U16, product: U16)
    ensures NoNul(UnknownName(vendor, product))
  {
    Hex4NoNul(vendor);
    Hex4NoNul(product);
    var p := "USB <unknown device> ";
    assert NoNul(p);
    NoNulConcat(p, Hex4(vendor));
    NoNulConcat(p + Hex4(vendor), ":");
    NoNulConcat(p + Hex4(vendor) + ":", Hex4(product));
  }

  /** What the USB core tells a driver about the device and the interface
      it is probed for. Descriptor strings are C strings. */
  datatype UsbDevice = UsbDevice(
    manufacturer: Option<seq<char>>,
    product: Option<seq<char>>,
    vendor: U16,
    productId: U16,
    busName: seq<char>,
    devpath: seq<char>,
    endpoints: seq<Endpoint>,
    maxPacket: nat)

  predicate WellFormed(dev: UsbDevice)
  {
    (dev.manufacturer.Some? ==> NoNul(dev.manufacturer.value)) &&
    (dev.product.Some? ==> NoNul(dev.product.value)) &&
    NoNul(dev.busName) && NoNul(dev.devpath)
  }

  const NAME_SIZE: nat := 128
  const PHYS_SIZE: nat := 64

  /** The manufacturer and the product strings, with a space between them
      when there are both. */
  function Joined(dev: UsbDevice): (s: seq<char>)
  {
    (if dev.manufacturer.Some? then dev.manufacturer.value else []) +
    (if dev.manufacturer.Some? && dev.product.Some? then " " else []) +
    (if dev.product.Some? then dev.product.value else [])
  }

  /** The input device's name: the joined strings as far as they fit the
      128-byte buffer, or the vendor and product ids when that is empty. */
  function DeviceName(dev: UsbDevice): (s: seq<char>)
  {
    var t := Truncate(Joined(dev), NAME_SIZE);
    if t == [] then UnknownName(dev.vendor, dev.productId) else t
  }

  /** usb_make_path's "usb-<bus>-<devpath>". */
  function UsbPath(dev: UsbDevice): (p: seq<char>)
  {
    "usb-" + dev.busName + "-" + dev.devpath
  }

  /** The physical path: the USB path with "/input0" appended, as far as it
      fits the 64-byte buffer. */
  function Phys(dev: UsbDevice): (s: seq<char>)
  {
    Truncate(UsbPath(dev) + "/input0", PHYS_SIZE)
  }

  /** A name is never empty and always fits its buffer. It is the joined
      strings as far as they fit whenever there is any text (so the
      manufacturer, a space and the product whenever all of that fits), and
      the fallback when there is none. */
  lemma DeviceNameShape(dev: UsbDevice)
    ensures var s := DeviceName(dev); 0 < |s| < NAME_SIZE
    ensures Joined(dev) == [] ==> DeviceName(dev) == UnknownName(dev.vendor, dev.productId)
    ensures Joined(dev) != [] ==> DeviceName(dev) == Truncate(Joined(dev), NAME_SIZE)
    ensures (dev.manufacturer.Some? && dev.product.Some? &&
      |dev.manufacturer.value| + 1 + |dev.product.value| < NAME_SIZE) ==>
      DeviceName(dev) == dev.manufacturer.value + " " + dev.product.value
  {
    var j := Joined(dev);
    if j != [] {
      assert |Truncate(j, NAME_SIZE)| > 0;
    }
  }

  /** usb_make_path(dev, buf, sizeof(buf)): the path as far as it fits,
      and its length, or -1 when it did not fit. */
  method UsbMakePath(buf: array<char>, dev: UsbDevice) returns (r: int)
    requires buf.Length > 0 && WellFormed(dev)
    modifies buf
    ensures Holds(buf[..], Truncate(UsbPath(dev), buf.Length))
    ensures r == if |UsbPath(dev)| < buf.Length then |UsbPath(dev)| else -1
  {
    var actual := FormatInto(buf, UsbPath(dev));
    r := if actual >= buf.Length then -1 else actual;
  }

  /** The name-building steps of probe over the zeroed name buffer: strscpy
      of the manufacturer, strlcat of a space and of the product, and the
      snprintf fallback when strlen finds the buffer still empty. */
  method BuildName(name: array<char>, dev: UsbDevice)
    requires name.Length == NAME_SIZE && Holds(name[..], []) && WellFormed(dev)
    modifies name
    ensures Holds(name[..], DeviceName(dev))
  {
    ghost var text: seq<char> := [];
    if dev.manufacturer.Some? {
      var _ := StrScpy(name, dev.manufacturer.value);
      text := dev.manufacturer.value;
    }
    if dev.product.Some? {
      if dev.manufacturer.Some? {
        var _ := StrLCat(name, Truncate(text, NAME_SIZE), " ");
        TruncateConcat(text, " ", NAME_SIZE);
        text := text + " ";
      }
      TruncateNoNul(text, NAME_SIZE);
      var _ := StrLCat(name, Truncate(text, NAME_SIZE), dev.product.value);
      TruncateConcat(text, dev.product.value, NAME_SIZE);
      text := text + dev.product.value;
    }
    assert text == Joined(dev);
    var n := StrLen(name, Truncate(text, NAME_SIZE));
    if n == 0 {
      UnknownNameNoNul(dev.vendor, dev.productId);
      var _ := FormatInto(name, UnknownName(dev.vendor, dev.productId));
    }
  }

  /** usb_make_path into the phys buffer, then strlcat of "/input0". */
  method BuildPhys(phys: array<char>, dev: UsbDevice)
    requires phys.Length == PHYS_SIZE && WellFormed(dev)
    modifies phys
    ensures Holds(phys[..], Phys(dev))
  {
    var _ := UsbMakePath(phys, dev);
    var _ := StrLCat(phys, Truncate(UsbPath(dev), PHYS_SIZE), "/input0");
    TruncateConcat(UsbPath(dev), "/input0", PHYS_SIZE);
  }

  /** A driver's per-device context: the name and phys buffers the input
      device points at, and the length programmed into the interrupt URB. */
  class InputContext {
    const name: array<char>
    const phys: array<char>
    var transferLength: nat

    /** kzalloc: both buffers zeroed. */
    constructor ()
      ensures fresh(name) && fresh(phys)
      ensures name.Length == NAME_SIZE && phys.Length == PHYS_SIZE
      ensures Holds(name[..], []) && transferLength == 0
    {
      name := new char[NAME_SIZE](_ => NUL);
      phys := new char[PHYS_SIZE](_ => NUL);
      transferLength := 0;
    }
  }

  /** Which of probe's allocations succeed (the context, the input device,
      the 8-byte DMA buffer, the URB), and what input_register_device
      returns. */
  datatype Allocs = Allocs(context: bool, input: bool, dma: bool, urb: bool, registerErr: int)

  datatype Stage = Allocated | AllocFailed(err: int) | NullDeref

  /** The allocation steps as written: only the input device is checked
      before the DMA buffer is stored into the context, so a failed kzalloc
      followed by a successful input_allocate_device writes through a null
      pointer. */
  function AllocAsWritten(a: Allocs): (s: Stage)
    ensures s == NullDeref <==> !a.context && a.input
    ensures s == Allocated <==> a.context && a.input && a.dma && a.urb
  {
    if !a.input then AllocFailed(-ENOMEM)
    else if !a.context then NullDeref
    else if !a.dma then AllocFailed(-ENOMEM)
    else if !a.urb then AllocFailed(-ENOMEM)
    else Allocated
  }

  /** The allocation steps with the context checked together with the input
      device, as in the kernel's usbmouse.c that both drivers follow. */
  function AllocChecked(a: Allocs): (s: Stage)
    ensures s != NullDeref
    ensures s == Allocated <==> a.context && a.input && a.dma && a.urb
    ensures s.AllocFailed? ==> s.err == -ENOMEM
  {
    if !a.context || !a.input then AllocFailed(-ENOMEM)
    else if !a.dma then AllocFailed(-ENOMEM)
    else if !a.urb then AllocFailed(-ENOMEM)
    else Allocated
  }

  /** The check changes nothing when kzalloc succeeds. */
  lemma AllocAgrees(a: Allocs)
    requires a.context
    ensures AllocAsWritten(a) == AllocChecked(a)
  {
  }

  lemma AllocAsWrittenDerefsNull()
    ensures AllocAsWritten(Allocs(false, true, true, true, 0)) == NullDeref
    ensures AllocChecked(Allocs(false, true, true, true, 0)) == AllocFailed(-ENOMEM)
  {
  }

  /** The status probe returns. */
  function ProbeStatus(dev: UsbDevice, a: Allocs): (r: int)
    ensures r == 0 <==> CheckInterface(dev.endpoints) == 0 && AllocChecked(a) == Allocated && a.registerErr == 0
    ensures CheckInterface(dev.endpoints) != 0 ==> r == -ENODEV
    ensures CheckInterface(dev.endpoints) == 0 && AllocChecked(a) != Allocated ==> r == -ENOMEM
  {
    if CheckInterface(dev.endpoints) != 0 then -ENODEV
    else if AllocChecked(a) != Allocated then -ENOMEM
    else a.registerErr
  }

  /** What probe has obtained when it gives up: the context and the input
      device as far as each was allocated, then the DMA buffer and the URB
      in turn (each is tried only once everything before it was obtained),
      and all four when input_register_device fails. */
  function ProbeTaken(dev: UsbDevice, a: Allocs): (ks: seq<Kind>)
    ensures CheckInterface(dev.endpoints) != 0 ==> ks == []
    ensures InputRegistration !in ks
  {
    if CheckInterface(dev.endpoints) != 0 then []
    else
      (if a.context then [DriverContext] else []) + (if a.input then [InputDevice] else []) +
      (if a.context && a.input && a.dma then [DmaBuffer] + (if a.urb then [Urb] else []) else [])
  }

  /** No resource is taken twice before probe gives up, so its unwind
      releases each of them once. */
  lemma ProbeTakenDistinct(dev: UsbDevice, a: Allocs)
    ensures var ks := ProbeTaken(dev, a);
      forall i, j :: 0 <= i < j < |ks| ==> ks[i] != ks[j]
  {
  }

  /** dev_probe of either driver. On every failure everything allocated is
      freed again, most recent first (the fail3, fail2 and fail1 labels,
      where freeing a null input device or context does nothing); on
      success the context holds the name, the phys path and the URB's
      transfer length, and the context, input device, DMA buffer, URB and
      input registration stay outstanding. */
  method Probe(reg: Registry, dev: UsbDevice, a: Allocs) returns (r: int, ctx: InputContext?)
    requires WellFormed(dev) && a.registerErr <= 0
    modifies reg
    ensures r == ProbeStatus(dev, a)
    ensures r != 0 ==> ctx == null && reg.Outstanding() == old(reg.Outstanding())
    ensures r != 0 ==> reg.log == old(reg.log) + Acquires(ProbeTaken(dev, a)) + Releases(Reverse(ProbeTaken(dev, a)))
    ensures r == 0 ==> reg.log == old(reg.log) + Acquires([DriverContext, InputDevice, DmaBuffer, Urb, InputRegistration])
    ensures r == 0 ==> (reg.Outstanding() ==
      old(reg.Outstanding()) + multiset{DriverContext, InputDevice, DmaBuffer, Urb, InputRegistration})
    ensures r == 0 ==> (ctx != null && fresh(ctx) &&
      Holds(ctx.name[..], DeviceName(dev)) && Holds(ctx.phys[..], Phys(dev)) &&
      ctx.transferLength == TransferLength(dev.maxPacket))
  {
    if CheckInterface(dev.endpoints) != 0 {
      ghost var none := ProbeTaken(dev, a);
      assert none == [] && |Acquires(none) + Releases(Reverse(none))| == 0;
      assert reg.log == old(reg.log) + Acquires(none) + Releases(Reverse(none));
      return -ENODEV, null;
    }
    r, ctx := ProbeChecked(reg, dev, a);
  }

  /** Probe past the interface check: the allocations, the context's
      contents, the registration, and the unwind on failure. */
  method ProbeChecked(reg: Registry, dev: UsbDevice, a: Allocs) returns (r: int, ctx: InputContext?)
    requires WellFormed(dev) && a.registerErr <= 0 && CheckInterface(dev.endpoints) == 0
    modifies reg
    ensures r == ProbeStatus(dev, a)
    ensures r != 0 ==> ctx == null && reg.Outstanding() == old(reg.Outstanding())
    ensures r != 0 ==> reg.log == old(reg.log) + Acquires(ProbeTaken(dev, a)) + Releases(Reverse(ProbeTaken(dev, a)))
    ensures r == 0 ==> reg.log == old(reg.log) + Acquires([DriverContext, InputDevice, DmaBuffer, Urb, InputRegistration])
    ensures r == 0 ==> (reg.Outstanding() ==
      old(reg.Outstanding()) + multiset{DriverContext, InputDevice, DmaBuffer, Urb, InputRegistration})
    ensures r == 0 ==> (ctx != null && fresh(ctx) &&
      Holds(ctx.name[..], DeviceName(dev)) && Holds(ctx.phys[..], Phys(dev)) &&
      ctx.transferLength == TransferLength(dev.maxPacket))
  {
    ghost var log0 := reg.log;
    var held, ok := AllocChain(reg, dev, a);
    if !ok {
      reg.Rollback(log0, held);
      return -ENOMEM, null;
    }
    var c := NewContext(dev);
    if a.registerErr != 0 {
      assert held == ProbeTaken(dev, a);
      reg.Rollback(log0, held);
      return a.registerErr, null;
    }
    held := reg.Take(log0, held, InputRegistration);
    ProbeHolds(log0, held);
    return 0, c;
  }

  /** The allocations of probe, in order: the context and the input device
      (both tried before either is checked), then the DMA buffer and the
      URB. */
  method AllocChain(reg: Registry, dev: UsbDevice, a: Allocs) returns (held: seq<Kind>, ok: bool)
    requires CheckInterface(dev.endpoints) == 0
    modifies reg
    ensures ok <==> AllocChecked(a) == Allocated
    ensures ok ==> held == [DriverContext, InputDevice, DmaBuffer, Urb]
    ensures !ok ==> held == ProbeTaken(dev, a)
    ensures reg.log == old(reg.log) + Acquires(held)
  {
    ghost var log0 := reg.log;
    held := [];
    if a.context {
      held := reg.Take(log0, held, DriverContext);
    }
    if a.input {
      held := reg.Take(log0, held, InputDevice);
    }
    if !a.context || !a.input || !a.dma {
      return held, false;
    }
    held := reg.Take(log0, held, DmaBuffer);
    if !a.urb {
      return held, false;
    }
    held := reg.Take(log0, held, Urb);
    return held, true;
  }

  /** What a successful probe leaves outstanding. */
  lemma ProbeHolds(log0: seq<Event>, held: seq<Kind>)
    requires held == [DriverContext, InputDevice, DmaBuffer, Urb, InputRegistration]
    ensures Balance(log0 + Acquires(held)) ==
      Balance(log0) + multiset{DriverContext, InputDevice, DmaBuffer, Urb, InputRegistration}
  {
    BalanceAcquires(log0, held);
  }

  /** The context as probe fills it once all allocations have succeeded. */
  method NewContext(dev: UsbDevice) returns (c: InputContext)
    requires WellFormed(dev)
    ensures fresh(c) && Holds(c.name[..], DeviceName(dev)) && Holds(c.phys[..], Phys(dev))
    ensures c.transferLength == TransferLength(dev.maxPacket)
  {
    c := new InputContext();
    BuildName(c.name, dev);
    BuildPhys(c.phys, dev);
    c.transferLength := TransferLength(dev.maxPacket);
  }
}
