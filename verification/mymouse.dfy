/** The wireless USB mouse driver (usb/mymouse_usb_input/mymouse_usb.c):
    its completion handler's decoding of the 8-byte report, the events it
    declares in probe, and the open routine's checks. */
module MyMouse {
  import opened UsbInput

  /** The relative axes and keys probe declares with set_bit. */
  const Capabilities: set<Capability> := {
    Cap(EV_REL, REL_X), Cap(EV_REL, REL_Y),
    Cap(EV_KEY, BTN_LEFT), Cap(EV_KEY, BTN_MIDDLE), Cap(EV_KEY, BTN_RIGHT),
    Cap(EV_KEY, KEY_UP), Cap(EV_KEY, KEY_DOWN)}

  /** The events usb_wimouse_irq reports for a report buffer: three buttons
      from the bits of byte 1, the wheel as up or down from byte 5, and the
      movement from bytes 2 and 3, all read as signed chars. */
  function Report(data: seq<bv8>): (ev: seq<InputEvent>)
    requires |data| == 8
    ensures Declared(ev, Capabilities)
    ensures |ev| > 0 && ev[|ev| - 1] == Sync
  {
    [Key(BTN_LEFT, data[1] & 0x1 != 0),
     Key(BTN_RIGHT, data[1] & 0x2 != 0),
     Key(BTN_MIDDLE, data[1] & 0x4 != 0),
     Key(KEY_UP, S8(data[5]) == 1),
     Key(KEY_DOWN, S8(data[5]) == -1),
     Rel(REL_X, S8(data[2])),
     Rel(REL_Y, S8(data[3])),
     Sync]
  }

  /** usb_wimouse_irq. */
  function Irq(status: int, data: seq<bv8>): (h: Handled)
    requires |data| == 8
    ensures h == Handle(status, Report(data))
    ensures Declared(h.events, Capabilities)
  {
    Handle(status, Report(data))
  }

  /** Each button is pressed exactly when its bit of byte 1 is set. */
  lemma ReportButtons(data: seq<bv8>)
    requires |data| == 8
    ensures var ev := Report(data);
      (Pressed(ev, BTN_LEFT) <==> data[1] & 0x1 != 0) &&
      (Pressed(ev, BTN_RIGHT) <==> data[1] & 0x2 != 0) &&
      (Pressed(ev, BTN_MIDDLE) <==> data[1] & 0x4 != 0)
  {
    var ev := Report(data);
    assert Pressed(ev, BTN_LEFT) <==> ev[0].pressed;
    assert Pressed(ev, BTN_RIGHT) <==> ev[1].pressed;
    assert Pressed(ev, BTN_MIDDLE) <==> ev[2].pressed;
  }

  /** The wheel is up exactly for byte 5 = 1 and down exactly for byte 5 =
      -1, so never both. */
  lemma ReportWheel(data: seq<bv8>)
    requires |data| == 8
    ensures var ev := Report(data);
      (Pressed(ev, KEY_UP) <==> data[5] == 0x01) &&
      (Pressed(ev, KEY_DOWN) <==> data[5] == 0xff) &&
      !(Pressed(ev, KEY_UP) && Pressed(ev, KEY_DOWN))
  {
    var ev := Report(data);
    assert S8(data[5]) == -1 <==> data[5] == 0xff;
    assert S8(data[5]) == 1 <==> data[5] == 0x01;
    assert Pressed(ev, KEY_UP) <==> ev[3].pressed;
    assert Pressed(ev, KEY_DOWN) <==> ev[4].pressed;
  }

  /** Each axis moves by its signed byte. */
  lemma ReportMoves(data: seq<bv8>)
    requires |data| == 8
    ensures var ev := Report(data);
      forall e :: e in ev && e.Rel? ==>
        (e.code == REL_X && e.delta == S8(data[2])) || (e.code == REL_Y && e.delta == S8(data[3]))
  {
  }

  /** usb_wimouse_open: -1 when the input device has no driver data, the
      context no USB device or no URB, or submitting the URB fails. */
  function Open(hasContext: bool, hasUsbDevice: bool, hasUrb: bool, submitErr: int): (r: int)
    ensures r == 0 <==> hasContext && hasUsbDevice && hasUrb && submitErr == 0
    ensures r != 0 ==> r == -1
  {
    if !hasContext then -1
    else if !hasUsbDevice then -1
    else if !hasUrb then -1
    else if submitErr != 0 then -1
    else 0
  }
}
