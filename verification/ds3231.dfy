/** The DS3231 real-time clock driver (dt_platform_drv/rtc_ds3231/ds3231.c):
    the temperature register pair decoded to milli-degrees Celsius and shown
    through sysfs, the BCD time registers decoded for the RTC core, and the
    driver's set_time and ioctl hooks. I2C transfers are an oracle: the
    number of messages the adapter reports transferred, and the register
    bytes read. */
module Ds3231 {
  import opened Errno
  import opened Decimal

  /** A register byte. The driver's masks and shifts on bytes are written as
      the arithmetic they amount to: `b & (2^k - 1)` is `b % 2^k`, `b >> k` is
      `b / 2^k`, and `(msb << 8) | lsb` is `msb * 256 + lsb`. */
  type Byte = x: nat | x < 256

  /** ds3231_read_block_data: a register read is a write of the register
      pointer followed by a read, two messages; anything short of both is an
      I/O error. */
  function ReadBlockStatus(transferred: int): (r: int)
    ensures r == 0 <==> transferred == 2
    ensures r != 0 ==> r == -EIO
  {
    if transferred != 2 then -EIO else 0
  }

  /** The 16-bit register pair `msb:lsb` read as a signed 16-bit value. */
  function S16(msb: Byte, lsb: Byte): (v: int)
    ensures -0x8000 <= v < 0x8000
  {
    var raw := msb * 256 + lsb;
    if raw >= 0x8000 then raw - 0x1_0000 else raw
  }

  /** The conversion of ds3231_read_temp: the signed pair shifted right
      arithmetically by 6 (Dafny's division by a positive divisor rounds
      towards minus infinity, as the shift does), times 250. */
  function MilliC(msb: Byte, lsb: Byte): (t: int)
  {
    (S16(msb, lsb) / 64) * 250
  }

  /** The datasheet's reading of the registers: a 10-bit two's-complement
      code, the 8 bits of the MSB register then the top 2 bits of the LSB
      register, in steps of 0.25 degrees. */
  function Code10(msb: Byte, lsb: Byte): (c: int)
    ensures -512 <= c < 512
  {
    var u := msb * 4 + lsb / 64;
    if u >= 512 then u - 1024 else u
  }

  /** The driver's shift-and-scale agrees with the datasheet's encoding. */
  lemma MilliCIsCode(msb: Byte, lsb: Byte)
    ensures MilliC(msb, lsb) == Code10(msb, lsb) * 250
  {
    var raw := msb * 256 + lsb;
    assert raw / 64 == msb * 4 + lsb / 64;
    if raw >= 0x8000 {
      assert (raw - 0x1_0000) / 64 == raw / 64 - 1024;
    }
  }

  /** Every reading is a multiple of 250 between -128000 and 127750, and the
      low 6 bits of the LSB register never affect it. */
  lemma MilliCRange(msb: Byte, lsb: Byte)
    ensures var m := MilliC(msb, lsb);
      -128000 <= m <= 127750 && m % 250 == 0 && m == MilliC(msb, lsb - lsb % 64)
  {
    var low: Byte := lsb - lsb % 64;
    assert low / 64 == lsb / 64;
    MilliCIsCode(msb, lsb);
    MilliCIsCode(msb, low);
    var c := Code10(msb, lsb);
    assert Code10(msb, low) == c;
    assert (c * 250) % 250 == 0;
  }

  /** The example in the driver's comment: 0001 1001 01b is +25.25 degrees. */
  lemma TemperatureExample()
    ensures MilliC(0x19, 0x40) == 25250
  {
  }

  /** ds3231_read_temp: the I/O error of the register read, or the reading.
      The two cannot be confused: no reading is -EIO. */
  function ReadTemp(transferred: int, msb: Byte, lsb: Byte): (r: int)
    ensures transferred != 2 ==> r == -EIO
    ensures transferred == 2 ==> r == Code10(msb, lsb) * 250
    ensures r == -EIO <==> transferred != 2
  {
    MilliCIsCode(msb, lsb);
    var err := ReadBlockStatus(transferred);
    if err != 0 then err else MilliC(msb, lsb)
  }

  /** What snprintf left in the sysfs buffer, and the length it returned. */
  datatype Shown = Shown(text: string, n: int)

  /** snprintf into an `size`-byte buffer: at most size - 1 characters and
      the NUL are stored; the length of the whole text is returned. */
  function Snprintf(size: nat, v: int): (s: Shown)
    requires size >= 1
    ensures s.n == |FormatInt(v)| && |s.text| == (if s.n < size then s.n else size - 1)
    ensures s.text == FormatInt(v)[..|s.text|]
  {
    var full := FormatInt(v);
    Shown(full[..if |full| < size then |full| else size - 1], |full|)
  }

  /** ds3231_temp_show: the reading (or the error) in decimal, in an 8-byte
      buffer. Every value ds3231_read_temp returns fits: the text is never
      cut short, and it reads back as that value. */
  function TempShow(transferred: int, msb: Byte, lsb: Byte): (s: Shown)
    ensures s.n == |s.text| <= 7
    ensures Denotes(s.text, ReadTemp(transferred, msb, lsb))
  {
    var v := ReadTemp(transferred, msb, lsb);
    MilliCRange(msb, lsb);
    ParseFormat(v);
    FitsSeven(v);
    var s := Snprintf(8, v);
    assert s.text == FormatInt(v);
    s
  }

  /** Any value between -999999 and 9999999 prints in at most 7 characters. */
  lemma FitsSeven(v: int)
    requires -999999 <= v <= 9999999
    ensures |FormatInt(v)| <= 7
  {
    if v < 0 {
      DigitsLength(-v, 6);
    } else {
      DigitsLength(v, 7);
    }
  }

  /** bcd2bin of linux/bcd.h: low nibble plus ten times the high nibble. */
  function Bcd2Bin(v: Byte): (n: nat)
  {
    v % 16 + (v / 16) * 10
  }

  /** The time fields the driver fills in for the RTC core. */
  datatype RtcTime = RtcTime(sec: nat, min: nat, hour: nat, wday: nat, mday: nat, mon: nat, year: nat)

  datatype TimeResult = TimeOk(tm: RtcTime) | TimeErr(err: int)

  /** bcd2bin of a masked low nibble is that nibble: the tens digit is gone. */
  lemma LowNibble(b: Byte)
    ensures Bcd2Bin(b % 16) == b % 16
  {
    SmallMod(b % 16, 16);
  }

  /** ds3231_rtc_read_time as written: each BCD register is masked with 0xF
      before bcd2bin, so only its units digit survives. */
  function ReadTimeAsWritten(transferred: int, regs: seq<Byte>): (r: TimeResult)
    requires |regs| == 7
    ensures r.TimeErr? <==> transferred != 2
    ensures r.TimeErr? ==> r.err == -EIO
    ensures r.TimeOk? ==> (r.tm.sec == regs[0] % 16 && r.tm.min == regs[1] % 16 &&
      r.tm.hour == regs[2] % 16 && r.tm.wday == regs[3] % 8 && r.tm.mday == regs[4] % 16 &&
      r.tm.mon == regs[5] % 16 && r.tm.year == regs[6] % 16)
  {
    LowNibble(regs[0]);
    LowNibble(regs[1]);
    LowNibble(regs[2]);
    LowNibble(regs[4]);
    LowNibble(regs[5]);
    LowNibble(regs[6]);
    var err := ReadBlockStatus(transferred);
    if err != 0 then TimeErr(err)
    else TimeOk(RtcTime(Bcd2Bin(regs[0] % 16), Bcd2Bin(regs[1] % 16), Bcd2Bin(regs[2] % 16),
      regs[3] % 8, Bcd2Bin(regs[4] % 16), Bcd2Bin(regs[5] % 16), Bcd2Bin(regs[6] % 16)))
  }

  /** ds3231_rtc_read_time with the DS3231's register layout: seconds and
      minutes in 7 bits, the 24-hour hour and the date in 6, the month in 5
      (bit 7 is the century flag), the year in all 8, the day of the week in
      3. */
  function ReadTime(transferred: int, regs: seq<Byte>): (r: TimeResult)
    requires |regs| == 7
    ensures r.TimeErr? <==> transferred != 2
    ensures r.TimeErr? ==> r.err == -EIO
    ensures r.TimeOk? ==> r.tm == Decode(regs)
  {
    var err := ReadBlockStatus(transferred);
    if err != 0 then TimeErr(err) else TimeOk(Decode(regs))
  }

  function Decode(regs: seq<Byte>): (t: RtcTime)
    requires |regs| == 7
  {
    RtcTime(Field(regs[0], 128), Field(regs[1], 128), Field(regs[2], 64),
      regs[3] % 8, Field(regs[4], 64), Field(regs[5], 32), Field(regs[6], 256))
  }

  /** A time of day and date the DS3231 can hold, in its own ranges. */
  predicate ValidTime(t: RtcTime)
  {
    t.sec < 60 && t.min < 60 && t.hour < 24 && 1 <= t.wday <= 7 &&
    1 <= t.mday <= 31 && 1 <= t.mon <= 12 && t.year < 100
  }

  /** A BCD field of `m` = 2^k low bits of a register. */
  function Field(b: Byte, m: nat): (n: nat)
    requires m > 0
  {
    Bcd2Bin(b % m)
  }

  /** Two BCD digits. */
  function Bin2Bcd(n: nat): (b: Byte)
    requires n < 100
  {
    (n / 10) * 16 + n % 10
  }

  /** bcd2bin undoes the BCD encoding of any value that fits the field:
      below 80 in 7 bits, below 40 in 6, below 20 in 5. */
  lemma BcdRoundTrip(n: nat, m: nat)
    requires n < 100
    requires (m == 256) || (m == 128 && n < 80) || (m == 64 && n < 40) || (m == 32 && n < 20)
    ensures Field(Bin2Bcd(n), m) == n
  {
    var b := Bin2Bcd(n);
    SmallMod(b, m);
    assert b % 16 == n % 10 && b / 16 == n / 10;
  }

  lemma SmallMod(x: nat, m: nat)
    requires x < m
    ensures x % m == x
  {
  }

  /** The registers holding a valid time, as the clock stores it. */
  function Encode(t: RtcTime): (regs: seq<Byte>)
    requires ValidTime(t)
    ensures |regs| == 7
  {
    [Bin2Bcd(t.sec), Bin2Bcd(t.min), Bin2Bcd(t.hour), t.wday,
     Bin2Bcd(t.mday), Bin2Bcd(t.mon), Bin2Bcd(t.year)]
  }

  /** Reading back the registers of any valid time yields that time. */
  lemma ReadTimeRoundTrip(t: RtcTime)
    requires ValidTime(t)
    ensures ReadTime(2, Encode(t)) == TimeOk(t)
  {
    BcdRoundTrip(t.sec, 128);
    BcdRoundTrip(t.min, 128);
    BcdRoundTrip(t.hour, 64);
    BcdRoundTrip(t.mday, 64);
    BcdRoundTrip(t.mon, 32);
    BcdRoundTrip(t.year, 256);
    SmallMod(t.wday, 8);
  }

  /** The driver as written reads 59 seconds past 12:34 on 25 December 2021
      as 9 seconds past 2:04 on the 5th of February 2001. */
  lemma ReadTimeAsWrittenDropsTens()
    ensures ReadTimeAsWritten(2, [0x59, 0x34, 0x12, 0x06, 0x25, 0x12, 0x21]) == TimeOk(RtcTime(9, 4, 2, 6, 5, 2, 1))
  {
    var regs: seq<Byte> := [0x59, 0x34, 0x12, 0x06, 0x25, 0x12, 0x21];
    assert regs[0] % 16 == 9 && regs[1] % 16 == 4 && regs[2] % 16 == 2 && regs[3] % 8 == 6;
    assert regs[4] % 16 == 5 && regs[5] % 16 == 2 && regs[6] % 16 == 1;
    var r := ReadTimeAsWritten(2, regs);
    assert r.TimeOk?;
  }

  /** The same registers, decoded with the field widths, give back the time
      they hold. */
  lemma ReadTimeKeepsTens()
    ensures ReadTime(2, [0x59, 0x34, 0x12, 0x06, 0x25, 0x12, 0x21]) == TimeOk(RtcTime(59, 34, 12, 6, 25, 12, 21))
  {
    var t := RtcTime(59, 34, 12, 6, 25, 12, 21);
    assert Bin2Bcd(59) == 0x59 && Bin2Bcd(34) == 0x34 && Bin2Bcd(12) == 0x12;
    assert Bin2Bcd(25) == 0x25 && Bin2Bcd(21) == 0x21;
    assert Encode(t) == [0x59, 0x34, 0x12, 0x06, 0x25, 0x12, 0x21];
    ReadTimeRoundTrip(t);
  }

  /** ds3231_rtc_set_time writes nothing to the clock and reports success. */
  function SetTime(t: RtcTime): (r: int)
    ensures r == 0
  {
    0
  }

  /** RTC_RD_TIME, _IOR('p', 0x09, struct rtc_time) with a 36-byte
      struct rtc_time. */
  const RTC_RD_TIME: bv32 := 0x8024_7009

  /** ds3231_rtc_ioctl with the argument cleared only through copy_to_user:
      only RTC_RD_TIME is handled; the time is read (its error is ignored)
      and, for a non-null argument, copied out, a failed copy giving EIO. */
  function Ioctl(cmd: bv32, argNonNull: bool, copyOk: bool): (r: int)
    ensures cmd != RTC_RD_TIME ==> r == -ENOIOCTLCMD
    ensures cmd == RTC_RD_TIME ==> (r == 0 <==> !argNonNull || copyOk)
    ensures cmd == RTC_RD_TIME && r != 0 ==> r == -EIO
  {
    if cmd == RTC_RD_TIME then
      if argNonNull && !copyOk then -EIO else 0
    else -ENOIOCTLCMD
  }

  /** How a call into the driver ends: with a return value, or with a
      kernel oops from a faulting store. */
  datatype IoctlOutcome = Returned(r: int) | Oops

  /** ds3231_rtc_ioctl as written: before copy_to_user the argument is
      cleared by a plain memset through the raw pointer, which has no fault
      fixup. `storeOk` says whether that store succeeds; it fails for an
      unmapped address and, on a CPU with SMAP or PAN, for every user
      address. */
  function IoctlAsWritten(cmd: bv32, argNonNull: bool, storeOk: bool, copyOk: bool): (out: IoctlOutcome)
    ensures out == Oops <==> cmd == RTC_RD_TIME && argNonNull && !storeOk
    ensures out != Oops ==> out == Returned(Ioctl(cmd, argNonNull, copyOk))
  {
    if cmd == RTC_RD_TIME && argNonNull && !storeOk then Oops
    else Returned(Ioctl(cmd, argNonNull, copyOk))
  }

  /** A user pointer the kernel may not store to: the driver as written
      oopses in the memset, where copy_to_user alone would have reported
      -EIO. */
  lemma IoctlAsWrittenFaults()
    ensures IoctlAsWritten(RTC_RD_TIME, true, false, false) == Oops
    ensures Ioctl(RTC_RD_TIME, true, false) == -EIO
  {
  }

  /** The ioctl number encodes a read of 36 bytes, type 'p', number 9. */
  lemma RtcRdTimeEncoding()
    ensures RTC_RD_TIME >> 30 == 2 && (RTC_RD_TIME >> 16) & 0x3FFF == 36
    ensures (RTC_RD_TIME >> 8) & 0xFF == 'p' as bv32 && RTC_RD_TIME & 0xFF == 9
  {
  }
}
