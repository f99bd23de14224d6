/** The simple memory-backed block device (blockdrv/sblkdev/device.c): a
    kvzalloc'ed buffer of `capacity` 512-byte sectors, served either through a
    blk-mq request queue (CONFIG_SBLKDEV_REQUESTS_BASED) or bio by bio, plus
    its geometry ioctl and its set-up and tear-down sequences.

    A request or a bio is modelled by its direction, its start sector, the
    caller's data as one byte sequence `io`, and the lengths of the segments
    that cut `io` into the pieces the block layer hands over one at a time. */
module SimpleBlockDevice {
  import opened Bytes
  import opened Errno
  import opened Resources
  import opened HdReg

  const SECTOR_SIZE: nat := 512

  datatype BlkStatus = BLK_STS_OK | BLK_STS_IOERR

  class Device {
    const capacity: nat
    var data: array<bv8>
    /** The statuses with which the device ended its requests or bios, in order. */
    var ended: seq<BlkStatus>

    ghost predicate Valid()
      reads this
    {
      data.Length == capacity * SECTOR_SIZE
    }

    /** The device structure with its zero-filled backing store. */
    constructor (capacity: nat)
      ensures this.capacity == capacity && Valid() && fresh(data)
      ensures data[..] == Zeros(capacity * SECTOR_SIZE) && ended == []
    {
      this.capacity := capacity;
      data := new bv8[capacity * SECTOR_SIZE](_ => 0);
      ended := [];
    }

    /** memcpy of `src` into the backing store at byte `pos`. */
    method WriteAt(pos: nat, src: seq<bv8>)
      requires pos + |src| <= data.Length
      modifies data
      ensures data[..] == Overlay(old(data[..]), pos, src)
    {
      forall k | pos <= k < pos + |src| {
        data[k] := src[k - pos];
      }
    }

    /** memcpy of one segment of `len` bytes between offset `off` of the
        caller's data and disk byte `pos`: to the disk for a write, from it
        for a read. */
    method CopySegment(write: bool, pos: nat, off: nat, len: nat, io: seq<bv8>) returns (io': seq<bv8>)
      requires pos + len <= data.Length && off + len <= |io|
      modifies data
      ensures write ==> (io' == io && data[..] == Overlay(old(data[..]), pos, io[off..off + len]))
      ensures !write ==> (data[..] == old(data[..]) &&
        io' == Overlay(io, off, old(data[..])[pos..pos + len]))
    {
      if write {
        WriteAt(pos, io[off..off + len]);
        io' := io;
      } else {
        io' := Overlay(io, off, data[pos..pos + len]);
      }
    }

    /** One segment of process_request, of `segLen` bytes at offset `off` of
        the caller's data: its length is clipped to what is left of the disk
        from `pos`, then it is copied. */
    method RequestSegment(write: bool, pos: nat, off: nat, segLen: nat, io: seq<bv8>)
        returns (io': seq<bv8>, len: nat)
      requires Valid() && pos <= data.Length && off + segLen <= |io|
      modifies data
      ensures len == Min(segLen, data.Length - pos)
      ensures write ==> (io' == io && data[..] == Overlay(old(data[..]), pos, io[off..off + len]))
      ensures !write ==> (data[..] == old(data[..]) &&
        io' == Overlay(io, off, old(data[..])[pos..pos + len]))
    {
      var devSize := capacity * SECTOR_SIZE;
      len := segLen;
      if pos + len > devSize {
        len := devSize - pos;
      }
      io' := CopySegment(write, pos, off, len, io);
    }

    /** One iteration of process_request's segment loop. */
    method RequestStep(write: bool, ghost d0: seq<bv8>, start: nat, lens: seq<nat>, i: nat,
                       buf: seq<bv8>, io: seq<bv8>, pos: nat, off: nat) returns (io': seq<bv8>, len: nat)
      requires Valid() && |d0| == data.Length
      requires RequestProgress(write, d0, data[..], start, lens, i, buf, io, pos, off)
      requires i < |lens| && Total(lens) == |buf|
      modifies data
      ensures len == Min(lens[i], data.Length - pos)
      ensures RequestProgress(write, d0, data[..], start, lens, i + 1, buf, io', pos + len, off + lens[i])
    {
      PrefixWithin(lens, i);
      ghost var cur := data[..];
      io', len := RequestSegment(write, pos, off, lens[i], io);
      RequestAdvance(write, d0, cur, data[..], start, lens, i, buf, io, io', pos, off, len);
    }

    /** process_request: every segment is clipped to the end of the disk and
        copied, so a write puts the request's data on the disk from the start
        position on, cut at the end of the disk, and a read fills the caller's
        data from the disk as far as the disk reaches. `nrBytes` counts the
        bytes moved. The request must not start past the end of the disk:
        there the clipped length would wrap around. */
    method ProcessRequest(write: bool, sector: nat, lens: seq<nat>, buf: seq<bv8>)
        returns (io: seq<bv8>, nrBytes: nat)
      requires Valid() && sector * SECTOR_SIZE <= data.Length && Total(lens) == |buf|
      modifies data
      ensures nrBytes == Min(|buf|, data.Length - sector * SECTOR_SIZE)
      ensures write ==> (io == buf && data[..] == Overlay(old(data[..]), sector * SECTOR_SIZE, buf))
      ensures !write ==> (data[..] == old(data[..]) &&
        io == Overlay(buf, 0, data[sector * SECTOR_SIZE..]))
    {
      var start: nat := sector * SECTOR_SIZE;
      ghost var d0 := data[..];
      var pos: nat := start;
      var off: nat := 0;
      nrBytes := 0;
      io := buf;
      var i := 0;
      while i < |lens|
        invariant RequestProgress(write, d0, data[..], start, lens, i, buf, io, pos, off)
        invariant |d0| == data.Length && nrBytes == pos - start
      {
        var len;
        io, len := RequestStep(write, d0, start, lens, i, buf, io, pos, off);
        pos := pos + len;
        off := off + lens[i];
        nrBytes := nrBytes + len;
        i := i + 1;
      }
      RequestDone(write, d0, data[..], start, lens, buf, io, pos, off);
    }

    /** _queue_rq: process_request never reports an error, so every request
        is ended exactly once, with BLK_STS_OK. */
    method QueueRq(write: bool, sector: nat, lens: seq<nat>, buf: seq<bv8>)
        returns (status: BlkStatus, io: seq<bv8>)
      requires Valid() && sector * SECTOR_SIZE <= data.Length && Total(lens) == |buf|
      modifies this, data
      ensures data == old(data) && Valid()
      ensures status == BLK_STS_OK && ended == old(ended) + [BLK_STS_OK]
      ensures write ==> (io == buf && data[..] == Overlay(old(data[..]), sector * SECTOR_SIZE, buf))
      ensures !write ==> (data[..] == old(data[..]) &&
        io == Overlay(buf, 0, data[sector * SECTOR_SIZE..]))
    {
      var nrBytes;
      io, nrBytes := ProcessRequest(write, sector, lens, buf);
      status := BLK_STS_OK;
      ended := ended + [status];
    }

    /** process_bio: segments are copied while they lie wholly inside the
        disk; the first one that does not is left alone together with all
        later ones, and the bio ends once, with an I/O error exactly when some
        segment was left. `copied` is the number of segments transferred. */
    method ProcessBio(write: bool, sector: nat, lens: seq<nat>, buf: seq<bv8>)
        returns (io: seq<bv8>, ghost copied: nat)
      requires Valid() && Total(lens) == |buf|
      modifies this, data
      ensures data == old(data) && Valid()
      ensures Fits(sector * SECTOR_SIZE, lens, data.Length, copied)
      ensures ended == old(ended) + [if copied < |lens| then BLK_STS_IOERR else BLK_STS_OK]
      ensures Total(lens[..copied]) <= |buf|
      ensures write ==> (io == buf &&
        data[..] == Overlay(old(data[..]), sector * SECTOR_SIZE, buf[..Total(lens[..copied])]))
      ensures !write ==> data[..] == old(data[..])
      ensures !write && copied == 0 ==> io == buf
      ensures !write && copied > 0 ==> (sector * SECTOR_SIZE + Total(lens[..copied]) <= data.Length &&
        io == Overlay(buf, 0, data[sector * SECTOR_SIZE..sector * SECTOR_SIZE + Total(lens[..copied])]))
    {
      var start: nat := sector * SECTOR_SIZE;
      ghost var d0 := data[..];
      var status;
      io, status, copied := BioSegments(write, start, lens, buf);
      BioDone(write, d0, data[..], start, lens, copied, buf, io, start + Total(lens[..copied]));
      ended := ended + [status];
    }

    /** One iteration of process_bio's segment loop, for a segment that lies
        wholly inside the disk. */
    method BioStep(write: bool, ghost d0: seq<bv8>, start: nat, lens: seq<nat>, i: nat,
                   buf: seq<bv8>, io: seq<bv8>, pos: nat) returns (io': seq<bv8>)
      requires BioProgress(write, d0, data[..], start, lens, i, buf, io, pos)
      requires i < |lens| && Total(lens) == |buf| && pos + lens[i] <= data.Length
      modifies data
      ensures BioProgress(write, d0, data[..], start, lens, i + 1, buf, io', pos + lens[i])
    {
      PrefixWithin(lens, i);
      ghost var cur := data[..];
      io' := CopySegment(write, pos, pos - start, lens[i], io);
      BioAdvance(write, d0, cur, data[..], start, lens, i, buf, io, io', pos);
    }

    /** The segment loop of process_bio, from disk byte `start`: it stops at
        the first segment that would run past the end of the disk, which
        makes the status an I/O error. */
    method BioSegments(write: bool, start: nat, lens: seq<nat>, buf: seq<bv8>)
        returns (io: seq<bv8>, status: BlkStatus, ghost copied: nat)
      requires Valid() && Total(lens) == |buf|
      modifies data
      ensures Fits(start, lens, data.Length, copied)
      ensures status == if copied < |lens| then BLK_STS_IOERR else BLK_STS_OK
      ensures BioProgress(write, old(data[..]), data[..], start, lens, copied, buf, io,
        start + Total(lens[..copied]))
    {
      var devSize: nat := capacity * SECTOR_SIZE;
      ghost var d0 := data[..];
      var pos: nat := start;
      io := buf;
      var i := 0;
      while i < |lens| && pos + lens[i] <= devSize
        invariant BioProgress(write, d0, data[..], start, lens, i, buf, io, pos)
      {
        io := BioStep(write, d0, start, lens, i, buf, io, pos);
        pos := pos + lens[i];
        i := i + 1;
      }
      BioStopped(write, d0, data[..], start, lens, i, buf, io, pos);
      copied := i;
      status := if i < |lens| then BLK_STS_IOERR else BLK_STS_OK;
    }
  }

  /** A segment and all those before it lie within the request's data. */
  lemma PrefixWithin(lens: seq<nat>, i: nat)
    requires i < |lens|
    ensures Total(lens[..i]) + lens[i] <= Total(lens)
  {
    TotalSnoc(lens, i);
    TotalMono(lens, i + 1, |lens|);
    assert lens[..|lens|] == lens;
  }

  /** How far process_request has got after `i` segments: `off` bytes of
      the caller's data are done and `pos` is the next disk byte, clipped to
      the end of the disk; a write has put those bytes on the disk `cur`
      (which started as `d0`), a read has filled them from it. */
  ghost predicate RequestProgress(write: bool, d0: seq<bv8>, cur: seq<bv8>, start: nat,
                                  lens: seq<nat>, i: nat, buf: seq<bv8>, io: seq<bv8>, pos: nat, off: nat)
  {
    i <= |lens| && |cur| == |d0| && start <= |d0| &&
    off == Total(lens[..i]) && off <= |buf| && pos == Min(start + off, |d0|) &&
    (write ==> (io == buf && cur == Overlay(d0, start, buf[..off]))) &&
    (!write ==> (cur == d0 && io == Overlay(buf, 0, d0[start..pos])))
  }

  /** One clipped segment copy carries the progress of process_request over
      one more segment. */
  lemma RequestAdvance(write: bool, d0: seq<bv8>, cur: seq<bv8>, cur': seq<bv8>, start: nat,
                       lens: seq<nat>, i: nat, buf: seq<bv8>, io: seq<bv8>, io': seq<bv8>,
                       pos: nat, off: nat, len: nat)
    requires RequestProgress(write, d0, cur, start, lens, i, buf, io, pos, off)
    requires i < |lens| && off + lens[i] <= |buf| && |io| == |buf|
    requires len == Min(lens[i], |d0| - pos)
    requires write ==> (io' == io && cur' == Overlay(cur, pos, io[off..off + len]))
    requires !write ==> (cur' == cur && io' == Overlay(io, off, cur[pos..pos + len]))
    ensures RequestProgress(write, d0, cur', start, lens, i + 1, buf, io', pos + len, off + lens[i])
  {
    TotalSnoc(lens, i);
    if write {
      RequestWriteStep(d0, start, buf, off, lens[i], pos, len);
    } else {
      RequestReadStep(d0, start, buf, io, off, pos, len);
    }
  }

  /** A write segment clipped at the end of the disk extends what the
      request has put on the disk by that segment. */
  lemma RequestWriteStep(d0: seq<bv8>, start: nat, buf: seq<bv8>, off: nat, segLen: nat, pos: nat, len: nat)
    requires start <= |d0| && off + segLen <= |buf| && pos == Min(start + off, |d0|)
    requires len == Min(segLen, |d0| - pos)
    ensures pos + len <= |d0|
    ensures Overlay(Overlay(d0, start, buf[..off]), pos, buf[off..off + len]) ==
      Overlay(d0, start, buf[..off + segLen])
  {
    OverlayExtend(d0, start, buf[..off], buf[off..off + segLen]);
    assert buf[..off] + buf[off..off + segLen] == buf[..off + segLen];
    assert buf[off..off + len] == buf[off..off + segLen][..len];
  }

  /** A read segment clipped at the end of the disk extends what the
      request has filled from the disk by that segment. */
  lemma RequestReadStep(d0: seq<bv8>, start: nat, buf: seq<bv8>, io: seq<bv8>, off: nat, pos: nat, len: nat)
    requires start <= pos && pos + len <= |d0| && off + len <= |buf|
    requires pos - start < off ==> len == 0
    requires pos - start <= off
    requires io == Overlay(buf, 0, d0[start..pos])
    ensures Overlay(io, off, d0[pos..pos + len]) == Overlay(buf, 0, d0[start..pos + len])
  {
    var src := d0[start..];
    FillExtend(buf, src, pos - start, off, len);
    assert src[..pos - start] == d0[start..pos];
    assert src[pos - start..pos - start + len] == d0[pos..pos + len];
    assert src[..pos - start + len] == d0[start..pos + len];
  }

  /** What process_request's progress means once every segment is done. */
  lemma RequestDone(write: bool, d0: seq<bv8>, cur: seq<bv8>, start: nat,
                    lens: seq<nat>, buf: seq<bv8>, io: seq<bv8>, pos: nat, off: nat)
    requires RequestProgress(write, d0, cur, start, lens, |lens|, buf, io, pos, off)
    requires Total(lens) == |buf|
    ensures pos == start + Min(|buf|, |d0| - start)
    ensures write ==> (io == buf && cur == Overlay(d0, start, buf))
    ensures !write ==> (cur == d0 && io == Overlay(buf, 0, d0[start..]))
  {
    assert lens[..|lens|] == lens;
    assert buf[..off] == buf;
    if !write {
      OverlayClip(buf, d0[start..]);
      assert d0[start..][..Min(|buf|, |d0| - start)] == d0[start..pos];
    }
  }

  /** How far process_bio has got after `i` segments that fitted: `pos` is
      the next disk byte; a write has put the data of those segments on the
      disk `cur` (which started as `d0`), a read has filled them from it. */
  ghost predicate BioProgress(write: bool, d0: seq<bv8>, cur: seq<bv8>, start: nat,
                              lens: seq<nat>, i: nat, buf: seq<bv8>, io: seq<bv8>, pos: nat)
  {
    i <= |lens| && |cur| == |d0| && |io| == |buf| &&
    pos == start + Total(lens[..i]) && Total(lens[..i]) <= |buf| && (i > 0 ==> pos <= |d0|) &&
    (write ==> (io == buf && cur == Overlay(d0, start, buf[..Total(lens[..i])]))) &&
    (!write ==> (cur == d0 && (i == 0 ==> io == buf) &&
      (i > 0 ==> io == Overlay(buf, 0, d0[start..pos]))))
  }

  /** The segments process_bio has copied when the next one, if any, would
      run past the end of the disk are the ones that fit. */
  lemma BioStopped(write: bool, d0: seq<bv8>, cur: seq<bv8>, start: nat,
                   lens: seq<nat>, i: nat, buf: seq<bv8>, io: seq<bv8>, pos: nat)
    requires BioProgress(write, d0, cur, start, lens, i, buf, io, pos)
    requires i < |lens| ==> pos + lens[i] > |d0|
    ensures Fits(start, lens, |d0|, i)
  {
    if i < |lens| {
      TotalSnoc(lens, i);
    }
  }

  /** What process_bio's progress means once the loop has stopped. */
  lemma BioDone(write: bool, d0: seq<bv8>, cur: seq<bv8>, start: nat,
                lens: seq<nat>, i: nat, buf: seq<bv8>, io: seq<bv8>, pos: nat)
    requires BioProgress(write, d0, cur, start, lens, i, buf, io, pos)
    ensures Total(lens[..i]) <= |buf| && pos == start + Total(lens[..i])
    ensures write ==> (io == buf && cur == Overlay(d0, start, buf[..Total(lens[..i])]))
    ensures !write ==> cur == d0
    ensures !write && i == 0 ==> io == buf
    ensures !write && i > 0 ==> (start + Total(lens[..i]) <= |d0| &&
      io == Overlay(buf, 0, d0[start..start + Total(lens[..i])]))
  {
  }

  /** One segment copied whole carries the progress of process_bio over one
      more segment. */
  lemma BioAdvance(write: bool, d0: seq<bv8>, cur: seq<bv8>, cur': seq<bv8>, start: nat,
                   lens: seq<nat>, i: nat, buf: seq<bv8>, io: seq<bv8>, io': seq<bv8>, pos: nat)
    requires BioProgress(write, d0, cur, start, lens, i, buf, io, pos)
    requires i < |lens| && Total(lens[..i]) + lens[i] <= |buf| && pos + lens[i] <= |d0|
    requires write ==> (io' == io && cur' == Overlay(cur, pos, io[pos - start..pos - start + lens[i]]))
    requires !write ==> (cur' == cur && io' == Overlay(io, pos - start, cur[pos..pos + lens[i]]))
    ensures BioProgress(write, d0, cur', start, lens, i + 1, buf, io', pos + lens[i])
  {
    TotalSnoc(lens, i);
    var off := pos - start;
    if write {
      OverlayExtend(d0, start, buf[..off], buf[off..off + lens[i]]);
      assert buf[..off] + buf[off..off + lens[i]] == buf[..off + lens[i]];
      assert buf[off..off + lens[i]][..lens[i]] == buf[off..off + lens[i]];
    } else {
      var src := d0[start..];
      FillExtend(buf, src, off, off, lens[i]);
      assert src[..off] == d0[start..pos];
      assert src[off..off + lens[i]] == cur[pos..pos + lens[i]];
      assert src[..off + lens[i]] == d0[start..pos + lens[i]];
      if i == 0 {
        assert d0[start..pos] == [];
        assert Overlay(buf, 0, []) == buf;
      }
    }
  }

  /** `n` leading segments of a bio that starts at byte `start` lie wholly
      inside a disk of `size` bytes, and the next one, if any, would run past
      the end. */
  ghost predicate Fits(start: nat, lens: seq<nat>, size: nat, n: nat)
  {
    n <= |lens| &&
    (n > 0 ==> start + Total(lens[..n]) <= size) &&
    (n < |lens| ==> start + Total(lens[..n + 1]) > size)
  }

  /** How many leading segments of a bio fit on the disk. */
  function Fit(start: nat, lens: seq<nat>, size: nat): (n: nat)
    ensures n <= |lens|
    ensures n > 0 ==> start + Total(lens[..n]) <= size
    ensures n < |lens| ==> start + Total(lens[..n + 1]) > size
  {
    FitFrom(start, lens, size, 0)
  }

  function FitFrom(start: nat, lens: seq<nat>, size: nat, i: nat): (n: nat)
    requires i <= |lens|
    ensures i <= n <= |lens|
    ensures n > i ==> start + Total(lens[..n]) <= size
    ensures n < |lens| ==> start + Total(lens[..n + 1]) > size
    decreases |lens| - i
  {
    if i == |lens| || start + Total(lens[..i + 1]) > size then i
    else FitFrom(start, lens, size, i + 1)
  }

  /** Fit is the only count with the two properties of Fits: process_bio
      transfers exactly the longest prefix of segments that fits. */
  lemma FitUnique(start: nat, lens: seq<nat>, size: nat, m: nat)
    requires Fits(start, lens, size, m)
    ensures m == Fit(start, lens, size)
  {
    var n := Fit(start, lens, size);
    if n < m {
      TotalMono(lens, n + 1, m);
    } else if m < n {
      TotalMono(lens, m + 1, n);
    }
  }

  /** A bio that lies inside the disk is transferred whole. */
  lemma FitWhole(start: nat, lens: seq<nat>, size: nat)
    requires start + Total(lens) <= size
    ensures Fit(start, lens, size) == |lens|
  {
    var n := Fit(start, lens, size);
    if n < |lens| {
      assert lens[..|lens|] == lens;
      TotalMono(lens, n + 1, |lens|);
    }
  }

  /** Reading back, into a buffer of the same length, the range a write left
      on the disk returns the written data. */
  lemma TransferRoundTrip(d: seq<bv8>, start: nat, w: seq<bv8>, r: seq<bv8>)
    requires start + |w| <= |d| && |r| == |w|
    ensures Overlay(r, 0, Overlay(d, start, w)[start..]) == w
  {
    var d2 := Overlay(d, start, w);
    OverlayCovers(r, d2[start..]);
    OverlaySlice(d, start, w);
    assert d2[start..][..|w|] == d2[start..start + |w|];
  }

  /** The request queue in use: a write followed by a read of the same
      in-bounds range returns what was written, and both requests end OK. */
  method RequestWriteThenRead(dev: Device, sector: nat, lens: seq<nat>, w: seq<bv8>, r: seq<bv8>)
      returns (io: seq<bv8>)
    requires dev.Valid() && sector * SECTOR_SIZE + |w| <= dev.data.Length
    requires Total(lens) == |w| && |r| == |w|
    modifies dev, dev.data
    ensures io == w && dev.ended == old(dev.ended) + [BLK_STS_OK, BLK_STS_OK]
  {
    ghost var d := dev.data[..];
    var st, b := dev.QueueRq(true, sector, lens, w);
    st, io := dev.QueueRq(false, sector, lens, r);
    TransferRoundTrip(d, sector * SECTOR_SIZE, w, r);
  }

  /** The bio path in use: a write bio inside the disk followed by a read
      bio of the same range returns what was written, and neither fails. */
  method BioWriteThenRead(dev: Device, sector: nat, lens: seq<nat>, w: seq<bv8>, r: seq<bv8>)
      returns (io: seq<bv8>)
    requires dev.Valid() && sector * SECTOR_SIZE + |w| <= dev.data.Length
    requires Total(lens) == |w| && |r| == |w|
    modifies dev, dev.data
    ensures io == w && dev.ended == old(dev.ended) + [BLK_STS_OK, BLK_STS_OK]
  {
    ghost var d := dev.data[..];
    ghost var copied;
    var b;
    b, copied := dev.ProcessBio(true, sector, lens, w);
    FitUnique(sector * SECTOR_SIZE, lens, dev.data.Length, copied);
    FitWhole(sector * SECTOR_SIZE, lens, dev.data.Length);
    assert lens[..|lens|] == lens;
    ghost var d2 := dev.data[..];
    assert w[..Total(lens)] == w;
    io, copied := dev.ProcessBio(false, sector, lens, r);
    FitUnique(sector * SECTOR_SIZE, lens, dev.data.Length, copied);
    if |lens| > 0 {
      OverlaySlice(d, sector * SECTOR_SIZE, w);
      OverlayCovers(r, d2[sector * SECTOR_SIZE..sector * SECTOR_SIZE + |w|]);
    } else {
      assert |w| == 0 && |r| == 0;
    }
  }

  /** ioctl_hdio_getgeo before its copy-out: 63 sectors per track and up to
      255 heads, with the cylinder count kept in 16 bits. A disk of at most
      63 sectors is one track. */
  function HdioGeometry(capacity: nat): (g: Geometry)
    ensures g.start == 0
    ensures 1 <= g.heads <= 255 && g.sectors <= 63 && g.cylinders < 0x1_0000
    ensures capacity <= 63 ==> g == Geometry(1, capacity, 1, 0)
    ensures capacity > 63 ==> g.sectors == 63
  {
    if capacity > 63 then
      var quotient := (capacity + (63 - 1)) / 63;
      if quotient > 255 then Geometry(255, 63, ((quotient + (255 - 1)) / 255) % 0x1_0000, 0)
      else Geometry(quotient, 63, 1, 0)
    else Geometry(1, capacity, 1, 0)
  }

  /** Unless the cylinder count was cut to 16 bits, the reported geometry
      covers the whole disk, and it is no more than one cylinder and one
      track too large. */
  lemma GeometryCovers(capacity: nat)
    requires ((capacity + 62) / 63 + 254) / 255 < 0x1_0000
    ensures var g := HdioGeometry(capacity);
      capacity <= g.sectors * g.heads * g.cylinders &&
      (capacity > 63 ==> g.sectors * g.heads * g.cylinders < capacity + 63 * 255 + 63)
  {
    var g := HdioGeometry(capacity);
    if capacity > 63 {
      var q := (capacity + 62) / 63;
      assert 63 * q >= capacity && 63 * q < capacity + 63;
      if q > 255 {
        var c := (q + 254) / 255;
        assert g.cylinders == c;
        assert 255 * c >= q && 255 * c < q + 255;
        assert 63 * (255 * c) >= 63 * q;
        assert 63 * (255 * c) < 63 * q + 63 * 255;
        assert g.sectors * g.heads * g.cylinders == 63 * (255 * c);
      }
    }
  }

  /** A 1024-sector disk reports 17 heads of 63 sectors on one cylinder. */
  lemma Geometry1024()
    ensures HdioGeometry(1024) == Geometry(17, 63, 1, 0)
  {
  }

  const CDROM_GET_CAPABILITY: nat := 0x5331

  /** What _ioctl returns, and the geometry it copied out if any. */
  datatype IoctlResult = IoctlResult(ret: int, copied: seq<Geometry>)

  /** _ioctl: HDIO_GETGEO copies the geometry out (EINVAL when the copy
      faults), the CD-ROM capability query is refused with EINVAL, and every
      other command is not a tty ioctl. */
  function Ioctl(capacity: nat, cmd: nat, copyFaults: bool): (r: IoctlResult)
    ensures r.ret == 0 <==> cmd == HDIO_GETGEO && !copyFaults
    ensures r.ret == 0 ==> r.copied == [HdioGeometry(capacity)]
    ensures r.ret != 0 ==> r.copied == []
    ensures r.ret == -EINVAL <==> cmd == CDROM_GET_CAPABILITY || (cmd == HDIO_GETGEO && copyFaults)
    ensures r.ret == -ENOTTY <==> cmd != HDIO_GETGEO && cmd != CDROM_GET_CAPABILITY
  {
    if cmd == HDIO_GETGEO then
      if copyFaults then IoctlResult(-EINVAL, []) else IoctlResult(0, [HdioGeometry(capacity)])
    else if cmd == CDROM_GET_CAPABILITY then IoctlResult(-EINVAL, [])
    else IoctlResult(-ENOTTY, [])
  }

  /** What blk_mq_alloc_disk hands back: a disk, NULL or an error pointer. */
  datatype DiskAlloc = DiskOk | DiskNull | DiskErr(err: int)

  /** The outcomes of the kernel calls sblkdev_add makes, in order. */
  datatype AddOracle = AddOracle(
    devOk: bool,        // kzalloc of the device structure
    dataOk: bool,       // kvzalloc of the backing store
    tagSetErr: int,     // blk_mq_alloc_tag_set (request-based only)
    mqDisk: DiskAlloc,  // blk_mq_alloc_disk (request-based only)
    bioDiskOk: bool,    // blk_alloc_disk (bio-based only)
    addDiskErr: int)    // add_disk

  datatype AddResult = Added(dev: Device) | AddFailed(err: int)

  /** The resources a live device holds, in the order sblkdev_add takes them. */
  function AddSteps(requestsBased: bool): (ks: seq<Kind>)
    ensures |ks| >= 4 && ks[0] == DeviceStruct && ks[|ks| - 1] == DiskAdded
    ensures TagSet in ks <==> requestsBased
  {
    if requestsBased then [DeviceStruct, DataBuffer, TagSet, GenDisk, DiskAdded]
    else [DeviceStruct, DataBuffer, GenDisk, DiskAdded]
  }

  /** How many of those resources sblkdev_add obtains before the first call
      that fails (all of them when none fails). */
  function Reached(requestsBased: bool, o: AddOracle): (n: nat)
    ensures n <= |AddSteps(requestsBased)|
    ensures n == |AddSteps(requestsBased)| <==> (o.devOk && o.dataOk && o.addDiskErr == 0 &&
      (if requestsBased then o.tagSetErr == 0 && o.mqDisk == DiskOk else o.bioDiskOk))
  {
    if !o.devOk then 0
    else if !o.dataOk then 1
    else if requestsBased && o.tagSetErr != 0 then 2
    else if requestsBased && o.mqDisk != DiskOk then 3
    else if !requestsBased && !o.bioDiskOk then 2
    else if o.addDiskErr != 0 then |AddSteps(requestsBased)| - 1
    else |AddSteps(requestsBased)|
  }

  /** The error sblkdev_add reports for a failing call. */
  function AddError(requestsBased: bool, o: AddOracle): (e: int)
    requires Reached(requestsBased, o) < |AddSteps(requestsBased)|
    ensures !o.devOk || !o.dataOk ==> e == -ENOMEM
    ensures o.devOk && o.dataOk && requestsBased && o.tagSetErr != 0 ==> e == o.tagSetErr
    ensures o.devOk && o.dataOk && requestsBased && o.tagSetErr == 0 && o.mqDisk.DiskErr? ==> e == o.mqDisk.err
    ensures o.devOk && o.dataOk && requestsBased && o.tagSetErr == 0 && o.mqDisk.DiskNull? ==> e == -ENOMEM
    ensures o.devOk && o.dataOk && !requestsBased && !o.bioDiskOk ==> e == -ENOMEM
    ensures o.devOk && o.dataOk && (if requestsBased then o.tagSetErr == 0 && o.mqDisk == DiskOk else o.bioDiskOk) ==>
      e == o.addDiskErr && e != 0
  {
    if !o.devOk || !o.dataOk then -ENOMEM
    else if requestsBased && o.tagSetErr != 0 then o.tagSetErr
    else if requestsBased && o.mqDisk.DiskErr? then o.mqDisk.err
    else if requestsBased && o.mqDisk.DiskNull? then -ENOMEM
    else if !requestsBased && !o.bioDiskOk then -ENOMEM
    else o.addDiskErr
  }

  /** sblkdev_add: on success the device holds a zeroed store of `capacity`
      sectors and every resource in AddSteps; on failure exactly the resources
      obtained so far are given back, most recent first, so nothing is
      outstanding afterwards that was not before. */
  method Add(reg: Registry, capacity: nat, requestsBased: bool, o: AddOracle) returns (r: AddResult)
    modifies reg
    ensures var steps := AddSteps(requestsBased);
      var n := Reached(requestsBased, o);
      if n == |steps| then
        r.Added? && fresh(r.dev) && fresh(r.dev.data) && r.dev.Valid() &&
        r.dev.capacity == capacity && r.dev.data[..] == Zeros(capacity * SECTOR_SIZE) &&
        r.dev.ended == [] && reg.log == old(reg.log) + Acquires(steps)
      else
        r == AddFailed(AddError(requestsBased, o)) &&
        reg.log == old(reg.log) + Acquires(steps[..n]) + Releases(Reverse(steps[..n]))
    ensures r.AddFailed? ==> reg.Outstanding() == old(reg.Outstanding())
  {
    ghost var n := Reached(requestsBased, o);
    ghost var steps := AddSteps(requestsBased);
    ghost var log0 := reg.log;
    var held: seq<Kind> := [];
    var err := -ENOMEM;
    label fail: {
      if !o.devOk {
        assert n == 0 && held == steps[..n];
        break fail;
      }
      held := reg.Take(log0, held, DeviceStruct);
      if !o.dataOk {
        assert n == 1 && held == steps[..n];
        break fail;
      }
      held := reg.Take(log0, held, DataBuffer);
      var dev := new Device(capacity);
      if requestsBased {
        if o.tagSetErr != 0 {
          assert n == 2 && held == steps[..n];
          err := o.tagSetErr;
          break fail;
        }
        held := reg.Take(log0, held, TagSet);
        if o.mqDisk.DiskNull? {
          assert n == 3 && held == steps[..n];
          break fail;
        }
        if o.mqDisk.DiskErr? {
          assert n == 3 && held == steps[..n];
          err := o.mqDisk.err;
          break fail;
        }
      } else {
        if !o.bioDiskOk {
          assert n == 2 && held == steps[..n];
          break fail;
        }
      }
      held := reg.Take(log0, held, GenDisk);
      if o.addDiskErr != 0 {
        assert n == |steps| - 1 && held == steps[..n];
        err := o.addDiskErr;
        break fail;
      }
      held := reg.Take(log0, held, DiskAdded);
      assert held == steps;
      return Added(dev);
    }
    assert n < |steps| && held == steps[..n] && err == AddError(requestsBased, o);
    reg.Rollback(log0, held);
    r := AddFailed(err);
  }

  /** sblkdev_remove: the live disk is deleted and every resource of the
      device is released once, in the reverse of the order sblkdev_add took
      them. */
  method Remove(reg: Registry, requestsBased: bool)
    modifies reg
    ensures reg.log == old(reg.log) + Releases(Reverse(AddSteps(requestsBased)))
    ensures reg.Outstanding() == old(reg.Outstanding()) - multiset(AddSteps(requestsBased))
  {
    ghost var log0 := reg.log;
    reg.Release(DiskAdded);
    reg.Release(GenDisk);
    if requestsBased {
      reg.Release(TagSet);
    }
    reg.Release(DataBuffer);
    reg.Release(DeviceStruct);
    ghost var steps := AddSteps(requestsBased);
    if requestsBased {
      assert Reverse(steps) == [DiskAdded, GenDisk, TagSet, DataBuffer, DeviceStruct];
    } else {
      assert Reverse(steps) == [DiskAdded, GenDisk, DataBuffer, DeviceStruct];
    }
    assert reg.log == log0 + Releases(Reverse(steps));
    BalanceReleases(log0, Reverse(steps));
    ReverseMultiset(steps);
  }

  /** A device that was added and later removed leaves nothing outstanding. */
  lemma AddRemoveBalanced(log: seq<Event>, requestsBased: bool)
    ensures Balance(log + Acquires(AddSteps(requestsBased)) + Releases(Reverse(AddSteps(requestsBased))))
      == Balance(log)
  {
    Unwind(log, AddSteps(requestsBased));
  }
}
