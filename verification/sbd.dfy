/** The older simple block driver (blockdrv/older_sbd/sbd.c): one global
    device whose vmalloc'ed store holds `nsectors` logical blocks, a legacy request function that serves the current chunk of each
    request with a single bounds-checked memcpy, a made-up geometry and the
    module's set-up and tear-down. */
module OlderSbd {
  import opened Bytes
  import opened Errno
  import opened Resources
  import opened HdReg

  const KERNEL_SECTOR_SIZE: nat := 512

  /** The current chunk of a request as the request function sees it: the
      direction, the start sector and the number of sectors (blk_rq_pos and
      blk_rq_cur_sectors, both in 512-byte kernel sectors), the chunk's data,
      and whether ending it ends the whole request. */
  datatype Chunk = Chunk(write: bool, sector: nat, nsect: nat, buf: seq<bv8>, last: bool)

  /** The chunk's data, as the block layer hands it over, spans exactly its
      kernel sectors. */
  predicate Sized(c: Chunk)
  {
    |c.buf| == c.nsect * KERNEL_SECTOR_SIZE
  }

  /** Where the chunk lies in the store, in bytes. */
  function Start(c: Chunk): (s: nat)
  {
    c.sector * KERNEL_SECTOR_SIZE
  }

  function End(c: Chunk): (e: nat)
    ensures e == Start(c) + c.nsect * KERNEL_SECTOR_SIZE
  {
    (c.sector + c.nsect) * KERNEL_SECTOR_SIZE
  }

  /** A chunk is carried out only if it lies wholly inside a store of `size`
      bytes. */
  predicate InBounds(size: nat, c: Chunk)
  {
    End(c) <= size
  }

  /** sbd_transfer's byte span as written: offset and length are the
      sector number and count scaled by the logical block size, although
      both count 512-byte kernel sectors. */
  function SpanAsWritten(lbs: nat, c: Chunk): (span: (nat, nat))
  {
    (c.sector * lbs, c.nsect * lbs)
  }

  lemma MulLess(n: nat, a: nat, b: nat)
    requires 0 < n && a < b
    ensures n * a < n * b
  {
  }

  /** With a logical block size other than 512, sbd_transfer as written
      copies a span other than the chunk's: a larger block size runs past
      the end of the chunk's data, a smaller one falls short of it, and the
      span starts elsewhere in the store unless the chunk is at sector 0. */
  lemma SpanAsWrittenMisses(lbs: nat, c: Chunk)
    requires Sized(c) && 0 < c.nsect
    ensures var span := SpanAsWritten(lbs, c);
      (span.1 > |c.buf| <==> lbs > KERNEL_SECTOR_SIZE) &&
      (span.1 < |c.buf| <==> lbs < KERNEL_SECTOR_SIZE) &&
      (span == (Start(c), |c.buf|) <==> lbs == KERNEL_SECTOR_SIZE)
  {
    if lbs > KERNEL_SECTOR_SIZE {
      MulLess(c.nsect, KERNEL_SECTOR_SIZE, lbs);
    } else if lbs < KERNEL_SECTOR_SIZE {
      MulLess(c.nsect, lbs, KERNEL_SECTOR_SIZE);
    }
  }

  /** Loaded with logical_block_size=4096, a one-segment request for 8
      sectors at sector 1 comes with 4096 bytes of data. sbd_transfer as
      written copies 32768 bytes through them, starting 4096 bytes into the
      store rather than at byte 512. */
  lemma TransferAsWrittenOverruns()
    ensures var c := Chunk(true, 1, 8, Zeros(4096), true);
      Sized(c) && SpanAsWritten(4096, c) == (4096, 32768) && Start(c) == 512
  {
  }

  /** The store after sbd_transfer, addressed in kernel sectors: an
      in-bounds write lands at the chunk's offset; anything else leaves it
      alone. */
  function TransferData(d: seq<bv8>, c: Chunk): (r: seq<bv8>)
    requires Sized(c)
    ensures |r| == |d|
    ensures !c.write || !InBounds(|d|, c) ==> r == d
    ensures c.write && InBounds(|d|, c) ==> r[Start(c)..End(c)] == c.buf
    ensures forall k :: 0 <= k < |d| && !(Start(c) <= k < End(c)) ==> r[k] == d[k]
  {
    if c.write && InBounds(|d|, c) then Overlay(d, Start(c), c.buf) else d
  }

  /** The chunk's data after sbd_transfer: an in-bounds read holds the
      store's bytes at the chunk's offset; anything else leaves it alone. */
  function TransferOut(d: seq<bv8>, c: Chunk): (io: seq<bv8>)
    requires Sized(c)
    ensures |io| == |c.buf|
    ensures c.write || !InBounds(|d|, c) ==> io == c.buf
  {
    if !c.write && InBounds(|d|, c) then d[Start(c)..End(c)] else c.buf
  }

  /** Each chunk's data spans exactly its sectors. */
  predicate WellSized(chunks: seq<Chunk>)
  {
    forall i :: 0 <= i < |chunks| ==> Sized(chunks[i])
  }

  /** The store after the chunks have been served in order. */
  function ApplyChunks(d: seq<bv8>, chunks: seq<Chunk>): (r: seq<bv8>)
    requires WellSized(chunks)
    ensures |r| == |d|
  {
    if chunks == [] then d
    else TransferData(ApplyChunks(d, chunks[..|chunks| - 1]), chunks[|chunks| - 1])
  }

  /** Each chunk's data after it was served, in order. */
  function Outs(d: seq<bv8>, chunks: seq<Chunk>): (outs: seq<seq<bv8>>)
    requires WellSized(chunks)
    ensures |outs| == |chunks|
  {
    if chunks == [] then []
    else
      var init := chunks[..|chunks| - 1];
      Outs(d, init) + [TransferOut(ApplyChunks(d, init), chunks[|chunks| - 1])]
  }

  /** Serving one more chunk extends the store's history and the outputs by
      that chunk's transfer. */
  lemma ServeSnoc(d: seq<bv8>, chunks: seq<Chunk>, i: nat)
    requires WellSized(chunks) && i < |chunks|
    ensures WellSized(chunks[..i]) && WellSized(chunks[..i + 1])
    ensures ApplyChunks(d, chunks[..i + 1]) == TransferData(ApplyChunks(d, chunks[..i]), chunks[i])
    ensures Outs(d, chunks[..i + 1]) == Outs(d, chunks[..i]) + [TransferOut(ApplyChunks(d, chunks[..i]), chunks[i])]
    ensures Trace(chunks[..i + 1]) == Trace(chunks[..i]) + [Ended(0)] + (if chunks[i].last then [Fetched] else [])
  {
    assert chunks[..i + 1][..i] == chunks[..i];
  }

  /** The i-th output is chunk i served against the store as the chunks
      before it left it: a read sees every earlier write. */
  lemma {:induction false} OutsAt(d: seq<bv8>, chunks: seq<Chunk>, i: nat)
    requires WellSized(chunks) && i < |chunks|
    ensures WellSized(chunks[..i])
    ensures Outs(d, chunks)[i] == TransferOut(ApplyChunks(d, chunks[..i]), chunks[i])
  {
    var n := |chunks| - 1;
    if i < n {
      assert chunks[..n][..i] == chunks[..i];
      OutsAt(d, chunks[..n], i);
    }
  }
  /** What the request function does with the block layer, in order. */
  datatype RqEvent = Fetched | Ended(status: int)

  /** The calls the request function makes: a fetch, then for each chunk an
      end with status 0, followed by a fetch when that chunk completed its
      request. */
  function Trace(chunks: seq<Chunk>): (t: seq<RqEvent>)
  {
    if chunks == [] then [Fetched]
    else Trace(chunks[..|chunks| - 1]) + [Ended(0)] + (if chunks[|chunks| - 1].last then [Fetched] else [])
  }

  function LastCount(chunks: seq<Chunk>): (n: nat)
  {
    if chunks == [] then 0
    else LastCount(chunks[..|chunks| - 1]) + (if chunks[|chunks| - 1].last then 1 else 0)
  }

  /** Every chunk is ended exactly once and with success, whether or not its
      copy was skipped; a new request is fetched only right after a chunk was
      ended, never in the middle of one. */
  lemma {:induction false} TraceShape(chunks: seq<Chunk>)
    ensures var t := Trace(chunks);
      |t| == 1 + |chunks| + LastCount(chunks) && t[0] == Fetched &&
      (forall p :: 0 <= p < |t| ==> t[p] == Fetched || t[p] == Ended(0)) &&
      (forall p :: 0 < p < |t| && t[p] == Fetched ==> t[p - 1] == Ended(0))
  {
    if chunks != [] {
      var init := chunks[..|chunks| - 1];
      TraceShape(init);
      var t0 := Trace(init);
      var t := Trace(chunks);
      assert t[..|t0|] == t0;
      assert t[|t0|] == Ended(0);
      forall p | 0 < p < |t| && t[p] == Fetched ensures t[p - 1] == Ended(0) {
        if p < |t0| {
          assert t[p] == t0[p] && t[p - 1] == t0[p - 1];
        }
      }
    }
  }

  /** Writing a chunk and reading the same in-bounds range back returns the
      written data. */
  lemma TransferRoundTrip(d: seq<bv8>, w: Chunk, r: Chunk)
    requires w.write && !r.write && w.sector == r.sector && w.nsect == r.nsect
    requires Sized(w) && Sized(r) && InBounds(|d|, w)
    ensures TransferOut(TransferData(d, w), r) == w.buf
  {
  }

  /** An out-of-range chunk changes neither the store nor the chunk's data. */
  lemma BeyondEndSkipped(d: seq<bv8>, c: Chunk)
    requires Sized(c) && !InBounds(|d|, c)
    ensures TransferData(d, c) == d && TransferOut(d, c) == c.buf
  {
  }

  /** The global device: its size in bytes, its store, and the logical
      block size the module was loaded with. */
  class Device {
    const lbs: nat
    const size: nat
    var data: array<bv8>

    ghost predicate Valid()
      reads this
    {
      data.Length == size
    }

    /** vmalloc does not clear memory: the store starts with whatever
        `contents` it held. */
    constructor (nsectors: nat, lbs: nat, contents: seq<bv8>)
      requires |contents| == nsectors * lbs
      ensures this.lbs == lbs && size == nsectors * lbs && Valid()
      ensures fresh(data) && data[..] == contents
    {
      this.lbs := lbs;
      size := nsectors * lbs;
      data := new bv8[|contents|](i requires 0 <= i < |contents| => contents[i]);
    }

    /** sbd_transfer with its span counted in kernel sectors, which is what
        the driver as written computes for the default block size of 512
        (SpanAsWritten is the span for other sizes): a chunk that would run
        past the end of the store is skipped; otherwise a write copies the
        chunk's data in and a read copies the store's bytes out. */
    method Transfer(c: Chunk) returns (io: seq<bv8>)
      requires Valid() && Sized(c)
      modifies data
      ensures data[..] == TransferData(old(data[..]), c)
      ensures io == TransferOut(old(data[..]), c)
    {
      var offset := c.sector * KERNEL_SECTOR_SIZE;
      var nbytes := c.nsect * KERNEL_SECTOR_SIZE;
      io := c.buf;
      if offset + nbytes > size {
        return;
      }
      if c.write {
        forall k | offset <= k < offset + nbytes {
          data[k] := c.buf[k - offset];
        }
        assert data[..] == Overlay(old(data[..]), offset, c.buf);
      } else {
        io := data[offset..offset + nbytes];
      }
    }

    /** sbd_request: the current chunk of the current request is served and
        ended with status 0 until the request is complete, then the next
        request is fetched, until the queue is empty. `outs` holds each
        chunk's data after it was served. */
    method Request(chunks: seq<Chunk>) returns (outs: seq<seq<bv8>>, trace: seq<RqEvent>)
      requires Valid() && WellSized(chunks)
      requires chunks == [] || chunks[|chunks| - 1].last
      modifies data
      ensures data[..] == ApplyChunks(old(data[..]), chunks)
      ensures outs == Outs(old(data[..]), chunks)
      ensures trace == Trace(chunks)
    {
      ghost var d0 := data[..];
      trace := [Fetched];
      outs := [];
      var i := 0;
      while i < |chunks|
        invariant i <= |chunks| && WellSized(chunks[..i])
        invariant data[..] == ApplyChunks(d0, chunks[..i])
        invariant outs == Outs(d0, chunks[..i])
        invariant trace == Trace(chunks[..i])
      {
        ServeSnoc(d0, chunks, i);
        var io := Transfer(chunks[i]);
        outs := outs + [io];
        trace := trace + [Ended(0)];
        if chunks[i].last {
          trace := trace + [Fetched];
        }
        i := i + 1;
      }
      assert chunks[..i] == chunks;
    }
  }

  /** sbd_getgeometry as written: `size` is the store's size in bytes, yet
      it is scaled by the logical block size as if it counted logical blocks,
      then cut into cylinders of 64 sectors (4 heads of 16 sectors) and kept
      in 16 bits. */
  function GetGeometry(size: nat, lbs: nat): (g: Geometry)
    ensures g.heads == 4 && g.sectors == 16 && g.start == 0
    ensures g.cylinders < 0x1_0000
    ensures size * (lbs / KERNEL_SECTOR_SIZE) < 64 * 0x1_0000 ==>
      g.cylinders * 64 <= size * (lbs / KERNEL_SECTOR_SIZE) < g.cylinders * 64 + 64
  {
    Geometry(4, 16, (size * (lbs / KERNEL_SECTOR_SIZE) / 64) % 0x1_0000, 0)
  }

  /** The default module (1024 blocks of 512 bytes, a 512 KiB disk) reports
      8192 cylinders: 524288 sectors, 512 times the disk's 1024. */
  lemma GeometryOverstates()
    ensures var g := GetGeometry(1024 * 512, 512);
      g.cylinders * g.heads * g.sectors == 512 * 1024
  {
  }

  /** The geometry computed from the disk's size in 512-byte sectors: it
      covers the disk to within one cylinder. */
  function GetGeometryFixed(size: nat): (g: Geometry)
    ensures g.heads == 4 && g.sectors == 16 && g.start == 0
    ensures g.cylinders < 0x1_0000
    ensures size / KERNEL_SECTOR_SIZE < 64 * 0x1_0000 ==>
      g.cylinders * g.heads * g.sectors <= size / KERNEL_SECTOR_SIZE < (g.cylinders + 1) * g.heads * g.sectors
  {
    Geometry(4, 16, (size / KERNEL_SECTOR_SIZE / 64) % 0x1_0000, 0)
  }

  /** The kernel calls sbd_init makes, and what they return. */
  datatype InitOracle = InitOracle(
    vmallocOk: bool,  // vmalloc of the store
    queueOk: bool,    // blk_init_queue
    regErr: int,      // register_blkdev: 0, or a negative error
    dynMajor: nat,    // the major register_blkdev picks when asked for 0
    diskOk: bool)     // alloc_disk

  /** register_blkdev: asked for major 0 it returns the major it picked;
      asked for a given major it returns 0; a failure is a negative error. */
  function RegisterBlkdev(major: nat, o: InitOracle): (r: int)
    requires o.regErr <= 0 && o.dynMajor > 0
    ensures r < 0 <==> o.regErr < 0
    ensures r > 0 <==> o.regErr == 0 && major == 0
  {
    if o.regErr < 0 then o.regErr else if major == 0 then o.dynMajor else 0
  }

  /** The resources a loaded module holds, in the order sbd_init takes them. */
  const InitSteps: seq<Kind> := [DataBuffer, RequestQueue, BlockMajor, GenDisk, DiskAdded]

  /** What sbd_init as written obtains before it fails: the store, the
      queue, and the major whenever register_blkdev granted one. */
  function TakenAsWritten(o: InitOracle): (ks: seq<Kind>)
  {
    if !o.vmallocOk then []
    else if !o.queueOk then [DataBuffer]
    else [DataBuffer, RequestQueue] + (if o.regErr == 0 then [BlockMajor] else [])
  }

  /** What its error labels give back: the store, and the major only when
      it was a dynamic one and the disk allocation failed. */
  function ReturnedAsWritten(major: nat, o: InitOracle): (ks: seq<Kind>)
  {
    if !o.vmallocOk then []
    else if !o.queueOk || o.regErr < 0 || major > 0 then [DataBuffer]
    else [BlockMajor, DataBuffer]
  }

  /** What sbd_init as written leaves behind when it fails: the request
      queue, once obtained, is never cleaned up, and a major registered
      under a fixed number is never given back. */
  function InitLeak(major: nat, o: InitOracle): (leak: multiset<Kind>)
  {
    if o.vmallocOk && o.queueOk then
      multiset{RequestQueue} + (if major > 0 && o.regErr == 0 then multiset{BlockMajor} else multiset{})
    else multiset{}
  }

  /** sbd_init as written. It succeeds only when a dynamic major was asked
      for and every call succeeded; in particular a fixed major that
      register_blkdev grants (returning 0) is taken for a failure. Every
      failure returns ENOMEM after giving back less than was obtained. */
  method InitAsWritten(reg: Registry, nsectors: nat, lbs: nat, major: nat, o: InitOracle, contents: seq<bv8>)
      returns (ret: int, dev: Device?, majorNum: int)
    requires o.regErr <= 0 && o.dynMajor > 0 && |contents| == nsectors * lbs
    modifies reg
    ensures ret == 0 <==> o.vmallocOk && o.queueOk && o.regErr == 0 && major == 0 && o.diskOk
    ensures ret != 0 ==> (ret == -ENOMEM && dev == null &&
      reg.log == old(reg.log) + Acquires(TakenAsWritten(o)) + Releases(ReturnedAsWritten(major, o)))
    ensures ret == 0 ==> (dev != null && fresh(dev) && dev.size == nsectors * lbs && dev.Valid() &&
      majorNum == o.dynMajor && reg.log == old(reg.log) + Acquires(InitSteps))
  {
    ghost var log0 := reg.log;
    ghost var taken: seq<Kind> := [DataBuffer];
    dev := null;
    majorNum := major;
    if !o.vmallocOk {
      return -ENOMEM, null, majorNum;
    }
    reg.Acquire(DataBuffer);
    label out: {
      if !o.queueOk {
        break out;
      }
      reg.Acquire(RequestQueue);
      AcquiresSnoc(taken, RequestQueue);
      taken := taken + [RequestQueue];
      majorNum := RegisterBlkdev(major, o);
      if o.regErr == 0 {
        reg.Acquire(BlockMajor);
        AcquiresSnoc(taken, BlockMajor);
        taken := taken + [BlockMajor];
      }
      if majorNum <= 0 {
        break out;
      }
      label out_unregister: {
        if !o.diskOk {
          break out_unregister;
        }
        reg.Acquire(GenDisk);
        AcquiresSnoc(taken, GenDisk);
        taken := taken + [GenDisk];
        reg.Acquire(DiskAdded);
        AcquiresSnoc(taken, DiskAdded);
        taken := taken + [DiskAdded];
        assert taken == InitSteps;
        dev := new Device(nsectors, lbs, contents);
        return 0, dev, majorNum;
      }
      assert reg.log == log0 + Acquires(TakenAsWritten(o));
      reg.Release(BlockMajor);
      assert reg.log == log0 + Acquires(TakenAsWritten(o)) + Releases([BlockMajor]);
      reg.Release(DataBuffer);
      assert Releases([BlockMajor]) + [Event.Release(DataBuffer)] == Releases(ReturnedAsWritten(major, o));
      return -ENOMEM, null, majorNum;
    }
    assert reg.log == log0 + Acquires(TakenAsWritten(o));
    reg.Release(DataBuffer);
    assert [Event.Release(DataBuffer)] == Releases(ReturnedAsWritten(major, o));
    return -ENOMEM, null, majorNum;
  }

  /** A failed sbd_init as written leaves exactly InitLeak outstanding. */
  lemma InitAsWrittenLeak(log: seq<Event>, major: nat, o: InitOracle)
    requires o.regErr <= 0 && !(o.vmallocOk && o.queueOk && o.regErr == 0 && major == 0 && o.diskOk)
    ensures Balance(log + Acquires(TakenAsWritten(o)) + Releases(ReturnedAsWritten(major, o)))
      == Balance(log) + InitLeak(major, o)
  {
    InitLeakCounts(major, o);
    NetBalance(log, TakenAsWritten(o), ReturnedAsWritten(major, o), InitLeak(major, o));
  }

  /** What a failed sbd_init as written obtains is what it gives back plus
      InitLeak. */
  lemma InitLeakCounts(major: nat, o: InitOracle)
    requires o.regErr <= 0 && !(o.vmallocOk && o.queueOk && o.regErr == 0 && major == 0 && o.diskOk)
    ensures multiset(TakenAsWritten(o)) == multiset(ReturnedAsWritten(major, o)) + InitLeak(major, o)
  {
    if !o.vmallocOk || !o.queueOk {
      assert TakenAsWritten(o) == ReturnedAsWritten(major, o) && InitLeak(major, o) == multiset{};
    } else if o.regErr < 0 {
      LeakAfterQueue();
    } else if major > 0 {
      LeakAfterFixedMajor();
    } else {
      LeakAfterDynamicMajor();
    }
  }

  /** A failed registration: the store is given back, the queue is not. */
  lemma LeakAfterQueue()
    ensures multiset([DataBuffer, RequestQueue]) == multiset([DataBuffer]) + multiset{RequestQueue}
  {
    assert [DataBuffer, RequestQueue] == [DataBuffer] + [RequestQueue];
  }

  /** Everything up to the major was taken and the labels give back only
      the store: the queue and the major are left. */
  lemma LeakAfterFixedMajor()
    ensures multiset([DataBuffer, RequestQueue, BlockMajor]) ==
      multiset([DataBuffer]) + multiset{RequestQueue, BlockMajor}
  {
    assert [DataBuffer, RequestQueue, BlockMajor] == [DataBuffer] + [RequestQueue, BlockMajor];
  }

  /** Everything up to the major was taken and the labels give back the
      major and the store: the queue is left. */
  lemma LeakAfterDynamicMajor()
    ensures multiset([DataBuffer, RequestQueue, BlockMajor]) ==
      multiset([BlockMajor, DataBuffer]) + multiset{RequestQueue}
  {
    var m := multiset([BlockMajor, DataBuffer]);
    assert [DataBuffer, RequestQueue, BlockMajor] == [DataBuffer, RequestQueue] + [BlockMajor];
    assert [BlockMajor, DataBuffer] == [BlockMajor] + [DataBuffer];
    LeakAfterQueue();
    assert m == multiset([DataBuffer]) + multiset{BlockMajor};
  }

  /** The two leaks of sbd_init, each on an input that shows it: a failing
      register_blkdev leaves the request queue allocated, and a granted fixed
      major leaves the queue and the major behind while the module load
      fails. */
  lemma InitLeaks()
    ensures InitLeak(0, InitOracle(true, true, -EBUSY, 1, true)) == multiset{RequestQueue}
    ensures InitLeak(240, InitOracle(true, true, 0, 1, true)) == multiset{RequestQueue, BlockMajor}
  {
  }

  /** What the corrected sbd_init holds when a call fails: a prefix of
      InitSteps that stops before the disk, one resource per call that
      succeeded. */
  function InitTaken(o: InitOracle): (ks: seq<Kind>)
    requires o.regErr <= 0
    ensures |ks| <= 3 && ks == InitSteps[..|ks|]
    ensures BlockMajor in ks ==> o.vmallocOk && o.queueOk && o.regErr == 0
  {
    if !o.vmallocOk then []
    else if !o.queueOk then [DataBuffer]
    else if o.regErr < 0 then [DataBuffer, RequestQueue]
    else [DataBuffer, RequestQueue, BlockMajor]
  }

  /** No resource is taken twice before sbd_init gives up, so its unwind
      releases each of them once. */
  lemma InitTakenDistinct(o: InitOracle)
    requires o.regErr <= 0
    ensures var ks := InitTaken(o);
      forall i, j :: 0 <= i < j < |ks| ==> ks[i] != ks[j]
  {
  }

  /** sbd_init with its failure paths put right: register_blkdev fails only
      with a negative value, the granted major is the requested one unless 0
      was asked for, and every failure gives back, most recent first, what
      was obtained before it. */
  method Init(reg: Registry, nsectors: nat, lbs: nat, major: nat, o: InitOracle, contents: seq<bv8>)
      returns (ret: int, dev: Device?, majorNum: int)
    requires o.regErr <= 0 && o.dynMajor > 0 && |contents| == nsectors * lbs
    modifies reg
    ensures ret == 0 <==> o.vmallocOk && o.queueOk && o.regErr == 0 && o.diskOk
    ensures ret != 0 ==> ret == -ENOMEM && dev == null && reg.Outstanding() == old(reg.Outstanding())
    ensures ret != 0 ==> reg.log == old(reg.log) + Acquires(InitTaken(o)) + Releases(Reverse(InitTaken(o)))
    ensures ret == 0 ==> (dev != null && fresh(dev) && dev.size == nsectors * lbs && dev.Valid() &&
      dev.lbs == lbs && dev.data[..] == contents &&
      majorNum == (if major == 0 then o.dynMajor else major) &&
      reg.log == old(reg.log) + Acquires(InitSteps))
  {
    ghost var log0 := reg.log;
    dev := null;
    majorNum := major;
    var held: seq<Kind> := [];
    if !o.vmallocOk {
      assert held == InitTaken(o);
      reg.Rollback(log0, held);
      return -ENOMEM, null, majorNum;
    }
    held := reg.Take(log0, held, DataBuffer);
    if !o.queueOk {
      assert held == InitTaken(o);
      reg.Rollback(log0, held);
      return -ENOMEM, null, majorNum;
    }
    held := reg.Take(log0, held, RequestQueue);
    var r := RegisterBlkdev(major, o);
    if r < 0 {
      assert held == InitTaken(o);
      reg.Rollback(log0, held);
      return -ENOMEM, null, majorNum;
    }
    if major == 0 {
      majorNum := r;
    }
    held := reg.Take(log0, held, BlockMajor);
    if !o.diskOk {
      assert held == InitTaken(o);
      reg.Rollback(log0, held);
      return -ENOMEM, null, majorNum;
    }
    reg.Acquire(GenDisk);
    reg.Acquire(DiskAdded);
    dev := new Device(nsectors, lbs, contents);
    ret := 0;
    assert held + [GenDisk, DiskAdded] == InitSteps;
    assert reg.log == log0 + Acquires(InitSteps);
  }

  /** sbd_exit: the disk, the major, the queue and the store are released in
      the reverse of the order sbd_init took them. */
  method Exit(reg: Registry)
    modifies reg
    ensures reg.log == old(reg.log) + Releases(Reverse(InitSteps))
  {
    ghost var log0 := reg.log;
    reg.Release(DiskAdded);
    reg.Release(GenDisk);
    reg.Release(BlockMajor);
    reg.Release(RequestQueue);
    reg.Release(DataBuffer);
    assert Reverse(InitSteps) == [DiskAdded, GenDisk, BlockMajor, RequestQueue, DataBuffer];
  }

  /** A module that was loaded and later unloaded leaves nothing outstanding. */
  lemma InitExitBalanced(log: seq<Event>)
    ensures Balance(log + Acquires(InitSteps) + Releases(Reverse(InitSteps))) == Balance(log)
  {
    Unwind(log, InitSteps);
  }
}
