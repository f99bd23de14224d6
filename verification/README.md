# Linux sample device drivers, modelled in Dafny

This project models the data paths and the set-up/tear-down paths of the
sample Linux drivers in the kaiwan/L3_dd_trg training repository. Each
driver has its own module:

- **SimpleBlockDevice** (`blockdrv/sblkdev/device.c`) is a memory-backed
  block device. Its device structure is a class: the backing store is an
  array and the statuses it has ended requests with are a sequence.
  - The model covers the request-queue path (`process_request`,
    `_queue_rq`) and the bio path (`process_bio`).
  - It covers the `HDIO_GETGEO` ioctl.
  - It covers `sblkdev_add` with its chain of error labels, and
    `sblkdev_remove`.
- **OlderSbd** (`blockdrv/older_sbd/sbd.c`) is the older single-disk
  driver.
  - The model covers `sbd_transfer`, `sbd_request`, `sbd_getgeometry`,
    `sbd_init` and `sbd_exit`.
- **Parrot** (`sysfs_sample_parrot_drv/parrot_driver.c`) is a character
  device that reads back messages queued through sysfs. The model covers:
  - the byte FIFO;
  - the table of message lengths, with its read and write indices;
  - the device mutex and the one-shot flag;
  - the open, close and read operations;
  - the sysfs handlers that add, reset and show status.
- **ZeroNull** models the "czero"/"cnul" devices of `cz_chardrv/cz.c`,
  `cz_chardrv/cz_enh.c`, `cz_miscdrv/cz_miscdrv.c` and
  `cz_miscdrv/cz_enh_miscdrv.c`.
  - The read, write and null operations of `cz_miscdrv.c` are
    line-for-line those of `cz.c`, so one member models both.
  - The enhanced drivers fill the whole request, one page-sized copy at a
    time. In `cz_enh.c` the copies come from a buffer holding the word
    0xdeadface; in `cz_enh_miscdrv.c` from a buffer of zeroes.
- **Ds3231** (`dt_platform_drv/rtc_ds3231/ds3231.c`) is the DS3231 RTC
  driver. The model covers:
  - the temperature read and its sysfs text;
  - the BCD time read;
  - `set_time` and the `RTC_RD_TIME` ioctl.
- **UsbInput**, **MyMouse** and **LaserPresenter** model the two USB HID
  input drivers, `usb/mymouse_usb_input/mymouse_usb.c` and
  `usb/laser_prsnt_input_usb/laserp.c`.
  - Their probe routines are the same code with different names. UsbInput
    models that code once, citing `mymouse_usb.c`; the table gives the
    matching lines of `laserp.c`.
  - UsbInput covers the interface check, the URB allocation chain and the
    device name and physical path. It also covers the completion switch
    both interrupt handlers share.
  - MyMouse and LaserPresenter model each driver's report decoding and its
    `open` routine.

Shared modules model the kernel facilities the drivers call:

- **Bytes**: byte sequences and the `Overlay` of one range onto a buffer.
- **UserCopy**: `copy_to_user` into user memory whose mapped extent is the
  array's length. The unmapped tail is the part that is not copied.
- **CString**: NUL-terminated strings, `strlen`, `strscpy` and `strlcat`.
- **Decimal**: the decimal text that `"%d"` prints.
- **Resources**: a log of resource acquisitions and releases. Its
  `Balance` is the multiset of resources still outstanding, which turns
  "this error path leaks nothing" into an equation.
- **Errno**: the errno constants.

Inputs from the environment become parameters:

- the outcome of every allocation and registration;
- whether a user buffer is mapped;
- the bytes a device or a USB report delivers.

## Model

| member | source | states |
|---|---|---|
| SimpleBlockDevice.Device.constructor | blockdrv/sblkdev/device.c:348-360 | the device holds `capacity` and a backing store of `capacity` sectors, all zero |
| SimpleBlockDevice.Device.RequestSegment | blockdrv/sblkdev/device.c:21-35 | one segment is clipped to the end of the disk; a write copies the segment's bytes into the store at `pos`, a read copies the store's bytes into the segment, and nothing else changes |
| SimpleBlockDevice.Device.ProcessRequest | blockdrv/sblkdev/device.c:11-38 | the byte count is the request's length clipped to the end of the disk; a write puts the request's data into the store at its start sector; a read returns the clipped range of the store and leaves the rest of the buffer unchanged |
| SimpleBlockDevice.Device.QueueRq | blockdrv/sblkdev/device.c:45-66 | every request ends with BLK_STS_OK (the end status is appended to the device's record) and transfers data as process_request does |
| SimpleBlockDevice.Device.BioSegments | blockdrv/sblkdev/device.c:84-100 | the segment loop copies exactly the leading segments that fit wholly on the disk (Fits) and reports BLK_STS_IOERR exactly when one did not |
| SimpleBlockDevice.Device.ProcessBio | blockdrv/sblkdev/device.c:74-103 | a bio transfers its leading segments that fit and no more, and ends with BLK_STS_IOERR exactly when a segment ran past the end of the disk |
| SimpleBlockDevice.RequestAdvance | blockdrv/sblkdev/device.c:21-35 | one clipped segment copy carries the loop's progress invariant forward by one segment |
| SimpleBlockDevice.BioAdvance | blockdrv/sblkdev/device.c:84-100 | one whole-segment copy carries process_bio's progress invariant forward by one segment |
| SimpleBlockDevice.BioDone | blockdrv/sblkdev/device.c:84-100 | once the loop stops, a write has overlaid the fitting prefix of the data at the bio's start and a read has returned the disk's bytes for it |
| SimpleBlockDevice.Fit | blockdrv/sblkdev/device.c:88-92 | the number of leading segments that fit: those before it fit, the next one would cross the end of the disk |
| SimpleBlockDevice.FitUnique | blockdrv/sblkdev/device.c:88-92 | any count with the two properties of Fits is Fit, so process_bio's stopping point is determined |
| SimpleBlockDevice.FitWhole | blockdrv/sblkdev/device.c:88-92 | a bio lying wholly inside the disk is transferred whole |
| SimpleBlockDevice.TransferRoundTrip | blockdrv/sblkdev/device.c:29-31 | reading back the range a write left gives the written bytes |
| SimpleBlockDevice.RequestWriteThenRead | blockdrv/sblkdev/device.c:45-66 | a write request followed by a read request of the same in-bounds range returns the written data and ends both with BLK_STS_OK |
| SimpleBlockDevice.BioWriteThenRead | blockdrv/sblkdev/device.c:74-103 | the same write-then-read round trip through the bio path |
| SimpleBlockDevice.HdioGeometry | blockdrv/sblkdev/device.c:176-200 | 63 sectors per track and between 1 and 255 heads; a disk of at most 63 sectors is one head of `capacity` sectors; the cylinder count is cut to 16 bits |
| SimpleBlockDevice.GeometryCovers | blockdrv/sblkdev/device.c:176-200 | unless the cylinder count was cut, heads * sectors * cylinders covers the whole capacity |
| SimpleBlockDevice.Geometry1024 | blockdrv/sblkdev/device.c:176-200 | a 1024-sector disk reports 17 heads, 63 sectors, one cylinder |
| SimpleBlockDevice.Ioctl | blockdrv/sblkdev/device.c:208-222 | 0 exactly for HDIO_GETGEO with a good user pointer, which copies the geometry out; -EINVAL for CDROM_GET_CAPABILITY or a faulting copy; -ENOTTY for anything else |
| SimpleBlockDevice.AddSteps | blockdrv/sblkdev/device.c:339-450 | a live device holds its structure first and its added disk last, and a tag set exactly in the request-based build |
| SimpleBlockDevice.Reached | blockdrv/sblkdev/device.c:339-450 | sblkdev_add obtains every resource exactly when each kernel call it makes succeeds |
| SimpleBlockDevice.AddError | blockdrv/sblkdev/device.c:348-442 | allocation failures report -ENOMEM; a failing tag set, disk allocation or add_disk reports that call's own error |
| SimpleBlockDevice.Add | blockdrv/sblkdev/device.c:339-478 | on success every step's resource is held and the device is a zeroed store of the capacity; on failure the error path releases, in reverse order, exactly what was taken, so nothing new is outstanding |
| SimpleBlockDevice.Remove | blockdrv/sblkdev/device.c:248-269 | every resource of a live device is released in reverse order of acquisition |
| SimpleBlockDevice.AddRemoveBalanced | blockdrv/sblkdev/device.c:248-269 | add followed by remove leaves the outstanding resources as they were |
| OlderSbd.SpanAsWrittenMisses | blockdrv/older_sbd/sbd.c:87-91 | for a chunk of 512-byte kernel sectors, the span sbd_transfer computes in logical blocks is longer than the chunk's data exactly when the block size exceeds 512, shorter exactly when it is below 512, and the chunk's own span exactly when it is 512 |
| OlderSbd.TransferAsWrittenOverruns | blockdrv/older_sbd/sbd.c:87-105 | with logical_block_size=4096, 8 sectors at sector 1 come with 4096 bytes, yet 32768 bytes are copied from byte 4096 of the store instead of byte 512 |
| OlderSbd.TransferData | blockdrv/older_sbd/sbd.c:87-106 | with the span counted in 512-byte kernel sectors: an in-bounds write puts the chunk's data at its sectors; an out-of-bounds chunk or a read leaves the store unchanged; bytes outside the chunk never change |
| OlderSbd.TransferOut | blockdrv/older_sbd/sbd.c:87-106 | with the span counted in kernel sectors: an in-bounds read returns the store's bytes for the chunk; otherwise the chunk's data is untouched |
| OlderSbd.Device.constructor | blockdrv/older_sbd/sbd.c:344-348 | the store has nsectors * logical_block_size bytes of unspecified (vmalloc) contents |
| OlderSbd.Device.Transfer | blockdrv/older_sbd/sbd.c:87-106 | for a chunk whose data spans its kernel sectors, sbd_transfer's effect on the store and on the chunk's data is TransferData and TransferOut |
| OlderSbd.Device.Request | blockdrv/older_sbd/sbd.c:242-290 | for chunks as blk_rq_pos, blk_rq_cur_sectors and bio_data hand them over (lines 279-280), the chunks are served in order against the evolving store, and the request function's calls to the block layer are Trace |
| OlderSbd.ServeSnoc | blockdrv/older_sbd/sbd.c:242-290 | serving one more chunk extends the store's history, the outputs and the trace by exactly that chunk |
| OlderSbd.OutsAt | blockdrv/older_sbd/sbd.c:242-290 | the i-th output is chunk i served against the store left by the chunks before it |
| OlderSbd.TraceShape | blockdrv/older_sbd/sbd.c:242-290 | every chunk is ended exactly once, with success, whether or not it was in bounds, and a new request is fetched after each last chunk |
| OlderSbd.TransferRoundTrip | blockdrv/older_sbd/sbd.c:87-106 | reading back an in-bounds chunk that was written returns its data |
| OlderSbd.BeyondEndSkipped | blockdrv/older_sbd/sbd.c:94-97 | a chunk beyond the end changes neither the store nor its own data |
| OlderSbd.GetGeometry | blockdrv/older_sbd/sbd.c:297-310 | as written: 4 heads, 16 sectors, start 0, and a cylinder count from the store's size in bytes scaled by the block size |
| OlderSbd.GeometryOverstates | blockdrv/older_sbd/sbd.c:297-310 | the default 512 KiB disk reports 512 times the cylinders its 1024 sectors fill |
| OlderSbd.GetGeometryFixed | blockdrv/older_sbd/sbd.c:297-310 | cylinders from the size in 512-byte sectors, so heads * sectors * cylinders is the sector count rounded down to a cylinder |
| OlderSbd.RegisterBlkdev | blockdrv/older_sbd/sbd.c:366-370 | register_blkdev fails with a negative error; it returns a positive major exactly when a dynamic major was asked for, and 0 for a granted fixed major |
| OlderSbd.InitAsWritten | blockdrv/older_sbd/sbd.c:339-399 | succeeds exactly when every call succeeds and a dynamic major was asked for; on failure it returns -ENOMEM and leaves InitLeak outstanding |
| OlderSbd.InitLeakCounts | blockdrv/older_sbd/sbd.c:354-398 | what a failing sbd_init takes is what its labels give back plus InitLeak |
| OlderSbd.InitAsWrittenLeak | blockdrv/older_sbd/sbd.c:354-398 | a failing sbd_init as written leaves exactly InitLeak outstanding |
| OlderSbd.InitLeaks | blockdrv/older_sbd/sbd.c:354-398 | the inputs that show the leaks: a failing dynamic registration leaks the queue; a granted fixed major leaks the queue and the major |
| OlderSbd.InitTaken | blockdrv/older_sbd/sbd.c:347-388 | what the corrected sbd_init holds when a call fails is a prefix of its steps ending before the disk, and it includes the major only when registration succeeded |
| OlderSbd.InitTakenDistinct | blockdrv/older_sbd/sbd.c:347-388 | no resource is obtained twice before sbd_init gives up |
| OlderSbd.Init | blockdrv/older_sbd/sbd.c:339-399 | corrected set-up: succeeds exactly when every call succeeds. On failure it returns -ENOMEM and releases exactly InitTaken, most recent first, so nothing new is outstanding. On success the device has the requested block size and contents, and the granted major is the one requested or, for 0, the picked one |
| OlderSbd.Exit | blockdrv/older_sbd/sbd.c:401-409 | the disk, the major, the queue and the store are released in reverse order of acquisition |
| OlderSbd.InitExitBalanced | blockdrv/older_sbd/sbd.c:401-409 | a module loaded by Init and then unloaded leaves nothing outstanding |
| Parrot.Next | sysfs_sample_parrot_drv/parrot_driver.c:114 | the advanced index stays inside the length table |
| Parrot.NextSlot | sysfs_sample_parrot_drv/parrot_driver.c:140-152 | advancing around the table visits the slots in turn and comes back to the read index after a full turn |
| Parrot.SlotInjective | sysfs_sample_parrot_drv/parrot_driver.c:140-152 | distinct positions within one turn are distinct slots |
| Parrot.FlattenFront | sysfs_sample_parrot_drv/parrot_driver.c:108 | the oldest message is at the front of the FIFO's bytes |
| Parrot.RecordedRetire | sysfs_sample_parrot_drv/parrot_driver.c:108-114 | retiring the oldest message and advancing the read index keeps the length table in step with the queued messages |
| Parrot.RecordedAppend | sysfs_sample_parrot_drv/parrot_driver.c:147-152 | recording a new message's length at the write index keeps the table in step |
| Parrot.TableFull | sysfs_sample_parrot_drv/parrot_driver.c:140-144 | the write index is one behind the read index exactly when max - 1 messages are pending |
| Parrot.Device.constructor | sysfs_sample_parrot_drv/parrot_driver.c:298-301 | an empty FIFO, both indices 0, nobody holding the device |
| Parrot.Device.Open | sysfs_sample_parrot_drv/parrot_driver.c:63-83 | write or read-write opens get -EACCES; a second opener gets -EBUSY; otherwise the device is taken and the one-shot flag re-armed; the queue is untouched |
| Parrot.Device.Close | sysfs_sample_parrot_drv/parrot_driver.c:85-90 | the device is released and nothing else changes |
| Parrot.Device.SetOneShot | sysfs_sample_parrot_drv/parrot_driver.c:58-60 | a run-time write to the one_shot parameter changes the mode the next read sees and nothing else |
| Parrot.Delivered | sysfs_sample_parrot_drv/parrot_driver.c:108 | kfifo_to_user takes the recorded length's worth of bytes from the front of the FIFO, never more than it holds |
| Parrot.AfterRead | sysfs_sample_parrot_drv/parrot_driver.c:108 | only the bytes that landed in the caller's buffer leave the FIFO, from its front |
| Parrot.ReadInStep | sysfs_sample_parrot_drv/parrot_driver.c:108-114 | a read from a non-empty FIFO in step with its table delivers the oldest message; the FIFO stays in step with the next slot if the whole message leaves it, and is out of step, starting with the message's tail, if the copy faulted after fewer bytes |
| Parrot.Device.CopyOut | sysfs_sample_parrot_drv/parrot_driver.c:108 | the caller's buffer receives the recorded length's worth of FIFO bytes where it is mapped, and the count not copied is what fell outside it |
| Parrot.Device.TakeMessage | sysfs_sample_parrot_drv/parrot_driver.c:108-118 | past the early returns: the bytes go out, only the landed ones leave the FIFO, the read index advances and the one-shot flag is set, and the length or -EFAULT is returned |
| Parrot.Device.Read | sysfs_sample_parrot_drv/parrot_driver.c:92-119 | from any state: after a one-shot read, or from an empty FIFO, 0 and no change; otherwise the recorded length's worth of FIFO bytes goes to the caller's buffer, the read index advances, and the length or -EFAULT is returned with only the landed bytes consumed; from a FIFO in step with its table, the oldest message is delivered, and the FIFO stays in step exactly when the read did not fault, the message's unread tail being left in front of the rest otherwise |
| Parrot.ReadFaultDesyncs | sysfs_sample_parrot_drv/parrot_driver.c:108-118 | after a read that faults part-way through the oldest message, the FIFO holds that message's tail followed by the remaining messages, so it no longer starts at a message |
| Parrot.ReadFaultExample | sysfs_sample_parrot_drv/parrot_driver.c:108-118 | messages 1 2 3 and 4 5 with one mapped byte: the next read after the fault returns 2 3 |
| Parrot.SkipTailAligned | sysfs_sample_parrot_drv/parrot_driver.c:108-114 | skipping the whole recorded length leaves the FIFO at the next message |
| Parrot.Device.SkipMessage | sysfs_sample_parrot_drv/parrot_driver.c:108-118 | as TakeMessage, except that the whole recorded length leaves the FIFO even when the copy faults |
| Parrot.Device.ReadSkippingFault | sysfs_sample_parrot_drv/parrot_driver.c:92-119 | the read with a faulting copy skipping the rest of the message: same results as Read, and a FIFO in step with its table stays in step after every read |
| Parrot.Device.AddToFifo | sysfs_sample_parrot_drv/parrot_driver.c:131-156 | from any state: -ENOSPC with no change exactly when the message exceeds the free space or the next write slot is the read index; otherwise the message is queued whole, its length is recorded at the write index and the index advances; a FIFO in step with its table stays in step |
| Parrot.Device.Reset | sysfs_sample_parrot_drv/parrot_driver.c:159-169 | the FIFO and the queue are emptied, both indices go to 0, and `count` is returned |
| Parrot.Device.StatusRead | sysfs_sample_parrot_drv/parrot_driver.c:174-178 | the text is the read index in decimal followed by a newline |
| Parrot.Device.StatusWritten | sysfs_sample_parrot_drv/parrot_driver.c:183-187 | the text is the write index in decimal followed by a newline |
| ZeroNull.CzOpen | cz_chardrv/cz.c:151-172 | minor 1 opens the zero source, minor 2 the sink, every other minor fails with -ENXIO (also cz_enh.c:204-224) |
| ZeroNull.Write | cz_chardrv/cz.c:91-132 | the zero source refuses writes with -ENOSYS; the sink accepts all `count` bytes (same in the other three drivers) |
| ZeroNull.NullRead | cz_chardrv/cz.c:104-119 | the sink always reads as end of file |
| ZeroNull.WriteThroughOpen | cz_chardrv/cz.c:151-172 | of the device nodes that open, exactly minor 2 accepts writes |
| ZeroNull.ReadOnePage | cz_chardrv/cz.c:56-89 | -ENOMEM with no change if the scratch buffer is not allocated; otherwise min(count, PAGE_SIZE) zeroes land in the caller's buffer and are returned, or -EFAULT if the buffer is not mapped that far (also cz_miscdrv.c:51-84) |
| ZeroNull.OnePageZeroes | cz_chardrv/cz.c:56-89 | after a one-page read the buffer is zero up to the delivered length and unchanged beyond it |
| ZeroNull.CopyChunks | cz_miscdrv/cz_enh_miscdrv.c:118-149 | the page copies and the remainder copy lay the scratch buffer end to end over the caller's buffer; the result is `count` exactly when the whole request is mapped, otherwise -EFAULT (also cz_enh.c:113-144) |
| ZeroNull.ReadZeroes | cz_miscdrv/cz_enh_miscdrv.c:64-154 | the first `count` bytes of the caller's buffer read as zero and the rest are unchanged; -ENOMEM or -EFAULT as above |
| ZeroNull.PatternWord | cz_chardrv/cz_enh.c:104-109 | the four bytes written are the little-endian word 0xdeadface |
| ZeroNull.FillPattern | cz_chardrv/cz_enh.c:104-109 | every whole word of the scratch buffer holds the pattern; the trailing bytes keep kzalloc's zeroes |
| ZeroNull.ReadPattern | cz_chardrv/cz_enh.c:75-149 | the caller's buffer receives the pattern buffer tiled over `count` bytes; -ENOMEM or -EFAULT as above |
| ZeroNull.PatternRepeats | cz_chardrv/cz_enh.c:113-144 | a read of at least a page delivers the pattern without a gap: byte k is pattern byte k mod 4 |
| Ds3231.ReadBlockStatus | dt_platform_drv/rtc_ds3231/ds3231.c:58-82 | a register read succeeds exactly when both messages of the transfer went through, otherwise -EIO |
| Ds3231.S16 | dt_platform_drv/rtc_ds3231/ds3231.c:89-111 | the register pair as the `s16 temp` holds it: a value in the signed 16-bit range |
| Ds3231.Code10 | dt_platform_drv/rtc_ds3231/ds3231.c:111-113 | the 10-bit two's-complement quarter-degree code lies in -512..511 |
| Ds3231.MilliCIsCode | dt_platform_drv/rtc_ds3231/ds3231.c:111-113 | the driver's shift and scale equal the 10-bit code times 250 millidegrees |
| Ds3231.MilliCRange | dt_platform_drv/rtc_ds3231/ds3231.c:111-113 | every reading is a multiple of 250 in -128000..127750 |
| Ds3231.TemperatureExample | dt_platform_drv/rtc_ds3231/ds3231.c:84-118 | the registers 0x19, 0x40 read as 25250 millidegrees |
| Ds3231.ReadTemp | dt_platform_drv/rtc_ds3231/ds3231.c:84-118 | -EIO exactly when the register read fails; otherwise the code times 250 |
| Ds3231.Snprintf | dt_platform_drv/rtc_ds3231/ds3231.c:136 | at most size - 1 characters, a prefix of the decimal text, and the full length returned |
| Ds3231.FitsSeven | dt_platform_drv/rtc_ds3231/ds3231.c:136 | every possible value prints in at most seven characters |
| Ds3231.TempShow | dt_platform_drv/rtc_ds3231/ds3231.c:129-139 | the sysfs text, never truncated, denotes ReadTemp's value in decimal, and its length is returned |
| Ds3231.LowNibble | dt_platform_drv/rtc_ds3231/ds3231.c:172-178 | bcd2bin of a masked low nibble is that nibble, so the tens digit is lost |
| Ds3231.ReadTimeAsWritten | dt_platform_drv/rtc_ds3231/ds3231.c:153-183 | as written: -EIO exactly when the transfer fails; otherwise each field is its register's low nibble |
| Ds3231.ReadTimeAsWrittenDropsTens | dt_platform_drv/rtc_ds3231/ds3231.c:172-178 | 12:34:59 on 25/12/21 reads as 2:04:09 on 5/2/1 |
| Ds3231.ReadTime | dt_platform_drv/rtc_ds3231/ds3231.c:153-183 | corrected: -EIO exactly when the transfer fails; otherwise every field decoded with its BCD width |
| Ds3231.BcdRoundTrip | dt_platform_drv/rtc_ds3231/ds3231.c:172-178 | bcd2bin undoes the BCD encoding of every value that fits the field's width |
| Ds3231.ReadTimeRoundTrip | dt_platform_drv/rtc_ds3231/ds3231.c:153-183 | reading the registers that hold any valid time gives back that time |
| Ds3231.ReadTimeKeepsTens | dt_platform_drv/rtc_ds3231/ds3231.c:172-178 | the corrected read gives 12:34:59 on 25/12/21 for the same registers |
| Ds3231.SetTime | dt_platform_drv/rtc_ds3231/ds3231.c:185-201 | nothing is written to the clock and success is reported |
| Ds3231.IoctlAsWritten | dt_platform_drv/rtc_ds3231/ds3231.c:213-222 | the driver as written oopses exactly when RTC_RD_TIME's raw memset stores to a non-null argument the kernel may not write; otherwise it returns what the corrected ioctl returns |
| Ds3231.IoctlAsWrittenFaults | dt_platform_drv/rtc_ds3231/ds3231.c:216-220 | a user pointer the kernel may not store to makes the driver as written oops, where the corrected ioctl returns -EIO |
| Ds3231.Ioctl | dt_platform_drv/rtc_ds3231/ds3231.c:204-229 | corrected ioctl, with the argument written only through copy_to_user: only RTC_RD_TIME is handled (otherwise -ENOIOCTLCMD); it succeeds unless the copy to a non-null pointer fails, which gives -EIO |
| Ds3231.RtcRdTimeEncoding | dt_platform_drv/rtc_ds3231/ds3231.c:214 | the ioctl number encodes a read of a 36-byte struct rtc_time, type 'p', number 9 |
| CString.Truncate | usb/mymouse_usb_input/mymouse_usb.c:186-191 | what fits in a `size`-byte buffer: the longest prefix shorter than `size` |
| CString.TruncateConcat | usb/mymouse_usb_input/mymouse_usb.c:186-191 | appending to a truncated string and truncating again is truncating the whole |
| CString.StrScpy | usb/mymouse_usb_input/mymouse_usb.c:186 | the buffer holds the truncated source, NUL-terminated, and nothing past it changes; the length is returned, or -E2BIG on truncation |
| CString.StrLCat | usb/mymouse_usb_input/mymouse_usb.c:190-191 | the buffer holds the truncated concatenation; the return is the length the untruncated result would have |
| Decimal.ParseFormat | sysfs_sample_parrot_drv/parrot_driver.c:177 | the decimal text of every integer reads back as that integer |
| Decimal.CanonicalDigits | sysfs_sample_parrot_drv/parrot_driver.c:177 | a digit run with no leading zero is the digits of its own value |
| Decimal.DenotesExactly | sysfs_sample_parrot_drv/parrot_driver.c:177 | a text denotes a value exactly when it is the "%d" text of that value, so the shown texts are fixed uniquely |
| UserCopy.CopyToUser | cz_chardrv/cz.c:78 | the mapped prefix of the destination receives the source, and the count of bytes not copied is returned |
| Resources.Registry.Rollback | blockdrv/sblkdev/device.c:452-477 | the fall-through error labels release what was taken, most recent first, leaving nothing new outstanding |
| Resources.Unwind | blockdrv/sblkdev/device.c:452-477 | acquiring a list and releasing it in reverse leaves the balance unchanged |
| UsbInput.Complete | usb/mymouse_usb_input/mymouse_usb.c:77-90 | the URB is not resubmitted exactly for -ECONNRESET, -ENOENT and -ESHUTDOWN (also laserp.c:93-106) |
| UsbInput.Handle | usb/mymouse_usb_input/mymouse_usb.c:53-129 | the report is delivered exactly when the URB is resubmitted, otherwise no events |
| UsbInput.S8 | usb/mymouse_usb_input/mymouse_usb.c:121-126 | a report byte as a signed char, congruent to the byte mod 256 |
| UsbInput.CheckInterface | usb/mymouse_usb_input/mymouse_usb.c:152-160 | 0 exactly for one endpoint that is interrupt-IN, otherwise -ENODEV (also laserp.c:183-191) |
| UsbInput.TransferLength | usb/mymouse_usb_input/mymouse_usb.c:246-247 | the URB's length is 8 or the endpoint's max packet size, whichever is smaller (also laserp.c:286-287) |
| UsbInput.HexDigitValue | usb/mymouse_usb_input/mymouse_usb.c:195-197 | a hex digit reads back as its value and is not NUL |
| UsbInput.Hex4RoundTrip | usb/mymouse_usb_input/mymouse_usb.c:195-197 | `%04x` of a 16-bit id is four hex digits that read back as the id |
| UsbInput.UnknownNameNoNul | usb/mymouse_usb_input/mymouse_usb.c:195-197 | the fallback name has no NUL inside it |
| UsbInput.DeviceNameShape | usb/mymouse_usb_input/mymouse_usb.c:185-198 | the name is non-empty and fits the 128-byte field; without strings it is the fallback; otherwise it is the joined strings truncated, and exactly "manufacturer product" when both are present and fit (also laserp.c:226-239) |
| UsbInput.UsbMakePath | usb/mymouse_usb_input/mymouse_usb.c:200 | usb_make_path leaves "usb-bus-devpath" truncated and terminated, and returns its length, or -1 if it did not fit |
| UsbInput.BuildName | usb/mymouse_usb_input/mymouse_usb.c:185-198 | the name buffer ends up holding DeviceName (also laserp.c:226-239) |
| UsbInput.BuildPhys | usb/mymouse_usb_input/mymouse_usb.c:200-205 | the phys buffer ends up holding the USB path with "/input0" appended, truncated to 64 bytes (also laserp.c:241-246) |
| UsbInput.InputContext.constructor | usb/mymouse_usb_input/mymouse_usb.c:169 | a zeroed context: empty name and phys strings and a zero transfer length |
| UsbInput.AllocAsWritten | usb/mymouse_usb_input/mymouse_usb.c:169-180 | as written: the failed context allocation is dereferenced exactly when it fails but input_allocate_device succeeds (also laserp.c:200-211) |
| UsbInput.AllocAsWrittenDerefsNull | usb/mymouse_usb_input/mymouse_usb.c:169-180 | the input that shows the dereference, and the corrected outcome -ENOMEM for it |
| UsbInput.AllocChecked | usb/mymouse_usb_input/mymouse_usb.c:169-180 | corrected: never dereferences null; all four allocations succeed or the probe fails with -ENOMEM |
| UsbInput.AllocAgrees | usb/mymouse_usb_input/mymouse_usb.c:169-180 | when the context allocation succeeds, the checked and the as-written chains agree |
| UsbInput.ProbeStatus | usb/mymouse_usb_input/mymouse_usb.c:131-271 | with the context allocation checked (the corrected chain AllocChecked, see Findings): 0 exactly when the interface checks out, every allocation succeeds and registration succeeds; -ENODEV for a bad interface, -ENOMEM for a failed allocation |
| UsbInput.Probe | usb/mymouse_usb_input/mymouse_usb.c:131-271 | probe with the context allocation checked (AllocChecked, see Findings): returns ProbeStatus; on failure no context, and the log is exactly what was obtained followed by its release in reverse order (fail labels 263-270), so nothing new is outstanding; on success the context, input device, DMA buffer, URB and registration are held and the context carries the name, phys and transfer length (also laserp.c:149-316) |
| UsbInput.ProbeTaken | usb/mymouse_usb_input/mymouse_usb.c:169-180 | what probe holds when it gives up: nothing after a bad interface, never the input registration |
| UsbInput.ProbeTakenDistinct | usb/mymouse_usb_input/mymouse_usb.c:263-270 | no resource is held twice when probe gives up, so the fail labels free each once |
| UsbInput.AllocChain | usb/mymouse_usb_input/mymouse_usb.c:169-180 | the four allocations succeed together or stop at the first failure, holding exactly ProbeTaken, and the log records exactly those acquisitions |
| UsbInput.ProbeChecked | usb/mymouse_usb_input/mymouse_usb.c:169-270 | past the interface check, with the context allocation checked: ProbeStatus, with the exact acquire-then-reverse-release log on failure and the filled context on success |
| UsbInput.NewContext | usb/mymouse_usb_input/mymouse_usb.c:185-247 | a fresh context holding the device's name, phys path and URB transfer length |
| MyMouse.Report | usb/mymouse_usb_input/mymouse_usb.c:118-128 | only declared capabilities are reported, and the report ends with a sync |
| MyMouse.Irq | usb/mymouse_usb_input/mymouse_usb.c:53-129 | the handler delivers the decoded report exactly when the URB is resubmitted |
| MyMouse.ReportButtons | usb/mymouse_usb_input/mymouse_usb.c:118-120 | each button is reported pressed exactly when its bit of byte 1 is set |
| MyMouse.ReportWheel | usb/mymouse_usb_input/mymouse_usb.c:121-122 | KEY_UP is pressed exactly on wheel byte 0x01 and KEY_DOWN exactly on 0xff (-1 as a signed char), never both |
| MyMouse.ReportMoves | usb/mymouse_usb_input/mymouse_usb.c:125-126 | the relative moves are the signed bytes 2 (X) and 3 (Y) |
| MyMouse.Open | usb/mymouse_usb_input/mymouse_usb.c:288-317 | 0 exactly when the context, the USB device and the URB exist and the submission succeeds, otherwise -1 |
| LaserPresenter.Report | usb/laser_prsnt_input_usb/laserp.c:141-146 | four key events, for the four mapped keys, then a sync, all within the declared capabilities |
| LaserPresenter.Irq | usb/laser_prsnt_input_usb/laserp.c:69-147 | the handler delivers the decoded report exactly when the URB is resubmitted |
| LaserPresenter.AtMostOnePressed | usb/laser_prsnt_input_usb/laserp.c:141-146 | at most one of the four keys is reported pressed |
| LaserPresenter.DefaultMeaning | usb/laser_prsnt_input_usb/laserp.c:35-49 | with the default key map, PAGEUP is pressed exactly on code 0x4b, PAGEDOWN on 0x4e, UP on 0x3e or 0x29, DOWN on 0x05 |
| LaserPresenter.Open | usb/laser_prsnt_input_usb/laserp.c:333-370 | -ENODEV exactly when the context or the USB device is missing; -1 for a missing URB or a failed submission; 0 otherwise |

## Left out

- The kfifo's internal ring buffer: the FIFO is the sequence of bytes it holds. Its power-of-two rounding of the size is not modelled.
- OlderSbd.Device.Transfer: the store is addressed in 512-byte kernel sectors, which is what sbd_transfer computes only when logical_block_size is 512. For other block sizes the span as written is SpanAsWritten; the memory corruption it causes beyond the chunk's data is not modelled.
- SimpleBlockDevice.Add: models the build where the kernel provides blk_mq_alloc_disk and add_disk returns a result (HAVE_BLK_MQ_ALLOC_DISK, HAVE_ADD_DISK_RESULT). The compatibility blk_mq_alloc_disk for older kernels (device.c:289-312) is not modelled; it leaks its queue when alloc_disk fails.
- UsbInput.Probe: models the probe with the context allocation checked. The probe as written dereferences a NULL context when only kzalloc fails; AllocAsWritten models that step.
- Parrot.Device.Read: the caller's `length` is ignored, as the driver ignores it. The whole oldest message is copied whatever `length` says.
- Concurrency: spinlocks, the parrot mutex's blocking behaviour beyond trylock, interrupt context, and races between sysfs and read.
- Logging (`pr_*`, `dev_*`, `dbg`, `print_hex_dump_bytes`), `PRINT_CTX` and I/O accounting (`bio_start_io_acct`).
- Registration glue (`misc_register`, `register_chrdev`, `class_create`, `device_create`, sysfs attribute files, `usb_register`, `module_init`): only the resource effects of the set-up routines named in the table are modelled.
- Ds3231.Ioctl: the `struct rtc_time` that is copied out, and the user memory it overwrites, are not modelled; only the return value is. The driver's memset before the copy is modelled only by IoctlAsWritten, as a store that either succeeds or oopses.
- ZeroNull.ReadPattern: follows the `unsigned long` chunk addresses of cz_enh_miscdrv.c:67, 122 and 144. cz_enh.c:79, 117 and 139 keep the address in an `int` computed from `(unsigned int)buf`, so on a 64-bit build each chunk is copied to a truncated, sign-extended address; this row and the cz_enh.c lines of ZeroNull.CopyChunks hold only for a 32-bit build.
- Ds3231.ReadTime: the month's century bit and the offsets to the RTC core's month (0-based) and year (from 1900) are not applied. The fields are the clock's own values, as the driver reports them.
- Ds3231.ReadTime: the hours register is decoded in 24-hour mode; the 12-hour mode bit is not modelled.
- Ds3231 I2C transfers: the bytes delivered and the count of messages transferred are parameters.
- UsbInput.Probe: `usb_to_input_id`, the input device's parent pointer, `input_set_drvdata` and the URB's completion wiring are not modelled. Nor is the set of capability bits installed on the input device; the reports are checked against each driver's declared capability set instead.
- The USB drivers' disconnect and close (`usb_kill_urb`, `input_unregister_device`, the frees) are not modelled.
- LaserPresenter.DefaultMeaning: the key map's module parameters are `nat` values fixed at load time. Changes made through sysfs at run time are not modelled.
- Integer widths: sizes, sector numbers and counts are unbounded naturals. The only wrap-arounds modelled are the ones the drivers rely on: 16-bit cylinders, signed 8-bit and 16-bit register values.
- The mmap variant of the zero device, and the other sample drivers in the repository, are not part of this model.

## Findings

| source | as written | input that shows it | evidently intended | confidence | as-written member | corrected member |
|---|---|---|---|---|---|---|
| blockdrv/older_sbd/sbd.c:354-398 | the request queue from blk_init_queue is never released on a later failure; the labels free only the store | register_blkdev fails with -EBUSY for a dynamic major | every failure path also calls blk_cleanup_queue | not executed | OlderSbd.InitLeaks | OlderSbd.Init |
| blockdrv/older_sbd/sbd.c:366-370 | a granted fixed major (register_blkdev returns 0) is treated as failure; the major stays registered and the queue is leaked | major_num = 240 with registration succeeding | only a negative return is a failure | not executed | OlderSbd.InitAsWritten | OlderSbd.Init |
| blockdrv/older_sbd/sbd.c:297-310 | the cylinder count is computed from the store's size in bytes, scaled by block size / 512, as if it were a sector count | the default 1024 blocks of 512 bytes (512 KiB) report 8192 cylinders instead of 16 | cylinders = sectors / (heads * sectors per track) | not executed | OlderSbd.GeometryOverstates | OlderSbd.GetGeometryFixed |
| dt_platform_drv/rtc_ds3231/ds3231.c:172-178 | every BCD time register is masked with 0xF before bcd2bin, dropping its tens digit | registers 59 34 12 06 25 12 21 (12:34:59, 25/12/21) read as 2:04:09 on 5/2/1 | mask each register to its field width (0x7F, 0x3F, ...) before bcd2bin | not executed | Ds3231.ReadTimeAsWrittenDropsTens | Ds3231.ReadTimeRoundTrip |
| blockdrv/older_sbd/sbd.c:87-105 | offset and length are the sector number and count (in 512-byte kernel sectors, lines 279-280) multiplied by logical_block_size, and that many bytes are copied through the chunk's buffer | logical_block_size=4096, one 8-sector segment at sector 1: 32768 bytes copied through a 4096-byte buffer, from byte 4096 of the store instead of 512 | offset and length in kernel sectors, `sector * KERNEL_SECTOR_SIZE` and `nsect * KERNEL_SECTOR_SIZE` | not executed | OlderSbd.TransferAsWrittenOverruns | OlderSbd.TransferData |
| sysfs_sample_parrot_drv/parrot_driver.c:108-118 | when kfifo_to_user faults part-way, the read index still moves past the message while its unread tail stays at the front of the FIFO; every later read is cut from the wrong bytes | messages 1 2 3 and 4 5, a read into a buffer with one mapped byte: -EFAULT, then the next read returns 2 3 | drop the rest of the faulted message with its slot, so the FIFO and the length table stay in step | not executed | Parrot.ReadFaultDesyncs | Parrot.Device.ReadSkippingFault |
| usb/mymouse_usb_input/mymouse_usb.c:169-176 | the result of kzalloc for the driver context is not checked before it is dereferenced (same at laserp.c:200-207) | context allocation fails while input_allocate_device succeeds | fail with -ENOMEM when kzalloc returns NULL | not executed | UsbInput.AllocAsWrittenDerefsNull | UsbInput.AllocChecked |
| dt_platform_drv/rtc_ds3231/ds3231.c:216-222 | RTC_RD_TIME clears the argument with a plain memset through the user pointer before copy_to_user; that store has no fault fixup | RTC_RD_TIME with a user-space argument on a CPU with SMAP or PAN, or with an unmapped address: the kernel oopses instead of returning -EIO | leave the clearing to copy_to_user, which reports a bad address | not executed | Ds3231.IoctlAsWrittenFaults | Ds3231.Ioctl |
