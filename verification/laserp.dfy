/** The four-button wireless laser presenter driver
    (usb/laser_prsnt_input_usb/laserp.c): the key each button reports, the
    completion handler's decoding of byte 3 of the report, and the open
    routine's checks. */
module LaserPresenter {
  import opened Errno
  import opened UsbInput

  /** The key reported for each button; each one is a module parameter. */
  datatype KeyMap = KeyMap(topLeft: nat, topRight: nat, bottomLeft: nat, bottomRight: nat)

  /** The parameters' defaults. */
  const DefaultKeys: KeyMap := KeyMap(KEY_PAGEUP, KEY_PAGEDOWN, KEY_UP, KEY_DOWN)

  /** The keys probe declares with set_bit. */
  function Capabilities(m: KeyMap): (caps: set<Capability>)
  {
    {Cap(EV_KEY, m.topLeft), Cap(EV_KEY, m.topRight), Cap(EV_KEY, m.bottomLeft), Cap(EV_KEY, m.bottomRight)}
  }

  /** The codes the presenter sends in byte 3 of its report. */
  const TOP_LEFT_CODE: bv8 := 0x4b
  const TOP_RIGHT_CODE: bv8 := 0x4e
  const BOTTOM_LEFT_CODE: bv8 := 0x3e
  const BOTTOM_LEFT_ALT_CODE: bv8 := 0x29
  const BOTTOM_RIGHT_CODE: bv8 := 0x05

  /** The events usb_laserpdl_irq reports: one key event per button, in
      the order top left, top right, bottom left, bottom right, then a sync. */
  function Report(m: KeyMap, data: seq<bv8>): (ev: seq<InputEvent>)
    requires |data| == 8
    ensures Declared(ev, Capabilities(m))
    ensures |ev| == 5 && ev[4] == Sync
    ensures forall i :: 0 <= i < 4 ==> ev[i].Key?
  {
    [Key(m.topLeft, data[3] == TOP_LEFT_CODE),
     Key(m.topRight, data[3] == TOP_RIGHT_CODE),
     Key(m.bottomLeft, data[3] == BOTTOM_LEFT_CODE || data[3] == BOTTOM_LEFT_ALT_CODE),
     Key(m.bottomRight, data[3] == BOTTOM_RIGHT_CODE),
     Sync]
  }

  /** usb_laserpdl_irq. */
  function Irq(m: KeyMap, status: int, data: seq<bv8>): (h: Handled)
    requires |data| == 8
    ensures h == Handle(status, Report(m, data))
    ensures Declared(h.events, Capabilities(m))
  {
    Handle(status, Report(m, data))
  }

  /** Whatever byte 3 holds, at most one button is reported pressed. */
  lemma AtMostOnePressed(m: KeyMap, data: seq<bv8>)
    requires |data| == 8
    ensures var ev := Report(m, data);
      forall i, j :: 0 <= i < 4 && 0 <= j < 4 && ev[i].pressed && ev[j].pressed ==> i == j
  {
  }

  /** With the default keys: page up exactly for 0x4b, page down exactly
      for 0x4e, up for 0x3e or 0x29, down exactly for 0x05. */
  lemma DefaultMeaning(data: seq<bv8>)
    requires |data| == 8
    ensures var ev := Report(DefaultKeys, data);
      (Pressed(ev, KEY_PAGEUP) <==> data[3] == 0x4b) &&
      (Pressed(ev, KEY_PAGEDOWN) <==> data[3] == 0x4e) &&
      (Pressed(ev, KEY_UP) <==> data[3] == 0x3e || data[3] == 0x29) &&
      (Pressed(ev, KEY_DOWN) <==> data[3] == 0x05)
  {
    var ev := Report(DefaultKeys, data);
    assert Pressed(ev, KEY_PAGEUP) <==> ev[0].pressed;
    assert Pressed(ev, KEY_PAGEDOWN) <==> ev[1].pressed;
    assert Pressed(ev, KEY_UP) <==> ev[2].pressed;
    assert Pressed(ev, KEY_DOWN) <==> ev[3].pressed;
  }

  /** usb_laserpdl_open: -ENODEV without driver data or a USB device, -1
      without a URB or when submitting it fails. */
  function Open(hasContext: bool, hasUsbDevice: bool, hasUrb: bool, submitErr: int): (r: int)
    ensures r == 0 <==> hasContext && hasUsbDevice && hasUrb && submitErr == 0
    ensures r == -ENODEV <==> !hasContext || !hasUsbDevice
    ensures r != 0 && r != -ENODEV ==> r == -1
  {
    if !hasContext then -ENODEV
    else if !hasUsbDevice then -ENODEV
    else if !hasUrb then -1
    else if submitErr != 0 then -1
    else 0
  }
}
