/** The "czero" and "cnul" character devices (cz_chardrv/cz.c,
    cz_chardrv/cz_enh.c, cz_miscdrv/cz_miscdrv.c,
    cz_miscdrv/cz_enh_miscdrv.c): a source of zeroes (or, in cz_enh.c, of a
    repeated 0xdeadface pattern) and a sink. The simple drivers deliver at
    most one page per read; the enhanced ones fill the whole request, one
    page-sized copy of a scratch buffer at a time. */
module ZeroNull {
  import opened Bytes
  import opened Errno
  import opened UserCopy

  const PAGE_SIZE: nat := 4096

  /** The file operations cz_open installs for a minor number. */
  datatype Ops = ZeroOps | NullOps

  datatype OpenResult = Opened(ops: Ops) | OpenFailed(err: int)

  /** cz_open: minor 1 is the zero source, minor 2 the sink, any other
      minor does not exist. Neither set of operations has an open routine of
      its own, so a known minor opens successfully. */
  function CzOpen(minor: nat): (r: OpenResult)
    ensures r.Opened? <==> minor == 1 || minor == 2
    ensures r.Opened? ==> (r.ops == ZeroOps <==> minor == 1)
    ensures r.OpenFailed? ==> r.err == -ENXIO
  {
    match minor
    case 1 => Opened(ZeroOps)
    case 2 => Opened(NullOps)
    case _ => OpenFailed(-ENXIO)
  }

  /** czero_write and cnul_write: the zero source refuses every write as not
      implemented; the sink accepts every byte. */
  function Write(ops: Ops, count: nat): (r: int)
    ensures ops == ZeroOps ==> r == -ENOSYS
    ensures ops == NullOps ==> r == count
  {
    if ops == ZeroOps then -ENOSYS else count
  }

  /** cnul_read: the sink always reads as end of file. */
  function NullRead(count: nat): (r: int)
    ensures r == 0
  {
    0
  }

  /** Of the device nodes that open, only minor 2 accepts writes. */
  lemma WriteThroughOpen(minor: nat, count: nat)
    ensures var o := CzOpen(minor);
      o.Opened? ==> (Write(o.ops, count) >= 0 <==> minor == 2)
  {
  }

  /** czero_read of cz.c (and the identical czero_read of cz_miscdrv.c): at
      most a page of zeroes, from a zeroed scratch buffer, in one copy. */
  method ReadOnePage(user: array<bv8>, count: nat, allocOk: bool) returns (r: int)
    modifies user
    ensures var n := Min(count, PAGE_SIZE);
      (!allocOk ==> r == -ENOMEM && user[..] == old(user[..])) &&
      (allocOk ==> (user[..] == Overlay(old(user[..]), 0, Zeros(n)) &&
        (r == n <==> n <= user.Length) && (r != n ==> r == -EFAULT)))
  {
    var n := count;
    if n > PAGE_SIZE {
      n := PAGE_SIZE;
    }
    if !allocOk {
      return -ENOMEM;
    }
    var zbuf := new bv8[n](_ => 0);
    assert zbuf[..] == Zeros(n);
    var notCopied := CopyToUser(user, 0, zbuf[..]);
    if notCopied > 0 {
      return -EFAULT;
    }
    return n;
  }

  /** What a one-page read leaves in the caller's buffer is zero wherever
      it landed, and untouched elsewhere. */
  lemma OnePageZeroes(u: seq<bv8>, count: nat)
    ensures var n := Min(count, PAGE_SIZE); var v := Overlay(u, 0, Zeros(n));
      forall k :: 0 <= k < |u| ==> v[k] == (if k < n then 0 else u[k])
  {
  }

  /** The request's `count` bytes as the enhanced drivers produce them: byte
      `k` is byte `k mod PAGE_SIZE` of the scratch buffer, which holds (at
      least) the first min(count, PAGE_SIZE) of them. */
  function Tile(z: seq<bv8>, count: nat): (t: seq<bv8>)
    requires Min(count, PAGE_SIZE) <= |z|
    ensures |t| == count
  {
    seq(count, k requires 0 <= k < count => z[k % PAGE_SIZE])
  }

  lemma PageOffset(i: nat, j: nat)
    requires j < PAGE_SIZE
    ensures (i * PAGE_SIZE + j) % PAGE_SIZE == j
  {
  }

  /** One more chunk of `len` bytes at offset `i * PAGE_SIZE` extends the
      tiled prefix by the scratch buffer's first `len` bytes. */
  lemma TileSnoc(z: seq<bv8>, i: nat, len: nat)
    requires len <= PAGE_SIZE && len <= |z| && Min(i * PAGE_SIZE, PAGE_SIZE) <= |z|
    ensures Min(i * PAGE_SIZE + len, PAGE_SIZE) <= |z|
    ensures Tile(z, i * PAGE_SIZE + len) == Tile(z, i * PAGE_SIZE) + z[..len]
  {
    var a := Tile(z, i * PAGE_SIZE + len);
    var b := Tile(z, i * PAGE_SIZE) + z[..len];
    forall k | 0 <= k < |a| ensures a[k] == b[k] {
      if k >= i * PAGE_SIZE {
        PageOffset(i, k - i * PAGE_SIZE);
      }
    }
  }

  /** A shorter tiling is a prefix of a longer one. */
  lemma TilePrefix(z: seq<bv8>, n: nat, m: nat)
    requires n <= m && Min(m, PAGE_SIZE) <= |z|
    ensures Min(n, PAGE_SIZE) <= |z| && Tile(z, n) == Tile(z, m)[..n]
  {
  }

  /** The copy loops shared by both enhanced drivers: `count / PAGE_SIZE`
      copies of the scratch buffer at successive page offsets, then the
      remaining `count % PAGE_SIZE` bytes, stopping at the first copy that
      faults. The caller's buffer then holds the tiled scratch buffer
      wherever it is mapped, and the request succeeds exactly when all of it
      is. */
  method CopyChunks(user: array<bv8>, z: array<bv8>, count: nat) returns (status: int)
    requires z.Length == Min(count, PAGE_SIZE) && user != z
    modifies user
    ensures user[..] == Overlay(old(user[..]), 0, Tile(z[..], count))
    ensures status == (if count <= user.Length then count else -EFAULT)
  {
    ghost var u0 := user[..];
    var loopcount := count / PAGE_SIZE;
    status := count;
    var i := 0;
    while i < loopcount
      invariant 0 <= i <= loopcount && i * PAGE_SIZE <= user.Length
      invariant z[..] == old(z[..])
      invariant user[..] == Overlay(u0, 0, Tile(z[..], i * PAGE_SIZE))
    {
      var notCopied := CopyToUser(user, i * PAGE_SIZE, z[..]);
      TileSnoc(z[..], i, PAGE_SIZE);
      OverlayAppend(u0, Tile(z[..], i * PAGE_SIZE), z[..]);
      if notCopied > 0 {
        TilePrefix(z[..], i * PAGE_SIZE + PAGE_SIZE, count);
        OverlayPast(u0, Tile(z[..], i * PAGE_SIZE + PAGE_SIZE), Tile(z[..], count));
        return -EFAULT;
      }
      i := i + 1;
    }
    var rem := count % PAGE_SIZE;
    if rem == 0 {
      return;
    }
    var notCopied := CopyToUser(user, i * PAGE_SIZE, z[..rem]);
    TileSnoc(z[..], i, rem);
    OverlayAppend(u0, Tile(z[..], i * PAGE_SIZE), z[..rem]);
    if notCopied > 0 {
      return -EFAULT;
    }
  }

  /** czero_read of cz_enh_miscdrv.c: a zeroed scratch buffer of at most a
      page, copied out chunk by chunk until the whole request is filled. */
  method ReadZeroes(user: array<bv8>, count: nat, allocOk: bool) returns (r: int)
    requires count <= MAX_RW_COUNT
    modifies user
    ensures !allocOk ==> r == -ENOMEM && user[..] == old(user[..])
    ensures allocOk ==> r == (if count <= user.Length then count else -EFAULT)
    ensures allocOk ==> forall k :: 0 <= k < user.Length ==>
      user[k] == (if k < count then 0 else old(user[k]))
  {
    var mcount := count;
    if count > PAGE_SIZE {
      mcount := PAGE_SIZE;
    }
    if !allocOk {
      return -ENOMEM;
    }
    var zbuf := new bv8[mcount](_ => 0);
    r := CopyChunks(user, zbuf, count);
    assert forall k :: 0 <= k < count ==> Tile(zbuf[..], count)[k] == 0;
  }

  /** The scratch pattern of cz_enh.c, the little-endian bytes of the
      32-bit word 0xdeadface. */
  function PatternByte(j: nat): (b: bv8)
    requires j < 4
  {
    [0xce, 0xfa, 0xad, 0xde][j]
  }

  /** The four pattern bytes, read as a little-endian 32-bit word, are
      0xdeadface. */
  lemma PatternWord()
    ensures (PatternByte(3) as bv32 << 24) | (PatternByte(2) as bv32 << 16) |
      (PatternByte(1) as bv32 << 8) | (PatternByte(0) as bv32) == 0xdeadface
  {
  }

  /** A scratch buffer of `m` bytes after the fill: every whole word holds
      the pattern, the trailing `m % 4` bytes keep kzalloc's zeroes. */
  function Pattern(m: nat): (p: seq<bv8>)
    ensures |p| == m
  {
    seq(m, k requires 0 <= k < m => if k < m / 4 * 4 then PatternByte(k % 4) else 0)
  }

  /** The fill loop of cz_enh.c, over a freshly zeroed buffer. */
  method FillPattern(z: array<bv8>)
    requires z[..] == Zeros(z.Length)
    modifies z
    ensures z[..] == Pattern(z.Length)
  {
    var i := 0;
    while i < z.Length / 4
      invariant 0 <= i <= z.Length / 4
      invariant forall k :: 0 <= k < z.Length ==> z[k] == (if k < i * 4 then PatternByte(k % 4) else 0)
    {
      z[i * 4 + 0] := 0xce;
      z[i * 4 + 1] := 0xfa;
      z[i * 4 + 2] := 0xad;
      z[i * 4 + 3] := 0xde;
      i := i + 1;
    }
  }

  /** czero_read of cz_enh.c: the scratch buffer of at most a page is
      filled with the pattern, then copied out chunk by chunk. */
  method ReadPattern(user: array<bv8>, count: nat, allocOk: bool) returns (r: int)
    requires count <= MAX_RW_COUNT
    modifies user
    ensures !allocOk ==> r == -ENOMEM && user[..] == old(user[..])
    ensures allocOk ==> r == (if count <= user.Length then count else -EFAULT)
    ensures allocOk ==> user[..] == Overlay(old(user[..]), 0, Tile(Pattern(Min(count, PAGE_SIZE)), count))
  {
    var mcount := count;
    if count > PAGE_SIZE {
      mcount := PAGE_SIZE;
    }
    if !allocOk {
      return -ENOMEM;
    }
    var zbuf := new bv8[mcount](_ => 0);
    assert zbuf[..] == Zeros(mcount);
    FillPattern(zbuf);
    r := CopyChunks(user, zbuf, count);
  }

  /** A read of at least a page from the pattern device delivers the
      pattern without a gap: byte `k` is pattern byte `k mod 4`. */
  lemma PatternRepeats(count: nat, k: nat)
    requires PAGE_SIZE <= count && k < count
    ensures Tile(Pattern(PAGE_SIZE), count)[k] == PatternByte(k % 4)
  {
    var q, j := k / PAGE_SIZE, k % PAGE_SIZE;
    assert k == q * PAGE_SIZE + j;
    WordOffset(q * 1024, j);
  }

  /** Whole pages are whole words: a byte keeps its place in its word. */
  lemma WordOffset(m: nat, j: nat)
    ensures (m * 4 + j) % 4 == j % 4
  {
  }
}
