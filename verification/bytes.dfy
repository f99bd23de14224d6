/** Byte sequences shared by the memory-backed devices: overlaying a byte
    range onto a buffer (what memcpy into a buffer leaves behind), and the
    segment lengths that cut a transfer's data into the pieces the block
    layer hands over one at a time. */
module Bytes {

  function Min(a: int, b: int): (m: int) { if a <= b then a else b }

  /** `n` zero bytes, the contents of a fresh kzalloc/kvzalloc buffer. */
  function Zeros(n: nat): (z: seq<bv8>)
    ensures |z| == n && forall i :: 0 <= i < n ==> z[i] == 0
  {
    seq(n, _ => 0)
  }

  /** The buffer `d` after `src` has been copied to offset `off`, clipped at
      the end of `d`: positions outside [off, off + |src|) keep their bytes. */
  function Overlay(d: seq<bv8>, off: nat, src: seq<bv8>): (r: seq<bv8>)
    ensures |r| == |d|
  {
    seq(|d|, i requires 0 <= i < |d| => if off <= i < off + |src| then src[i - off] else d[i])
  }

  /** Overlaying onto a buffer the bytes already there changes nothing. */
  lemma {:induction false} OverlayOwn(d: seq<bv8>, off: nat, n: nat)
    requires off + n <= |d|
    ensures Overlay(d, off, d[off..off + n]) == d
  {
    forall i | 0 <= i < |d| ensures Overlay(d, off, d[off..off + n])[i] == d[i] {}
  }

  /** A source at least as long as the buffer replaces all of it. */
  lemma OverlayCovers(a: seq<bv8>, b: seq<bv8>)
    requires |a| <= |b|
    ensures Overlay(a, 0, b) == b[..|a|]
  {
  }

  /** Only the part of the source that reaches into the buffer matters. */
  lemma OverlayClip(a: seq<bv8>, b: seq<bv8>)
    ensures Overlay(a, 0, b[..Min(|a|, |b|)]) == Overlay(a, 0, b)
  {
  }

  /** The overlaid range holds the source. */
  lemma OverlaySlice(d: seq<bv8>, off: nat, src: seq<bv8>)
    requires off + |src| <= |d|
    ensures Overlay(d, off, src)[off..off + |src|] == src
  {
  }

  /** Copying a piece right after the bytes already copied from offset 0
      extends the copy by that piece. */
  lemma OverlayAppend(d: seq<bv8>, f: seq<bv8>, x: seq<bv8>)
    ensures Overlay(Overlay(d, 0, f), |f|, x) == Overlay(d, 0, f + x)
  {
    var lhs := Overlay(Overlay(d, 0, f), |f|, x);
    var rhs := Overlay(d, 0, f + x);
    forall k | 0 <= k < |d| ensures lhs[k] == rhs[k] {}
  }

  /** Once a copy from offset 0 runs past the end of the buffer, copying more
      of the same source changes nothing further. */
  lemma OverlayPast(d: seq<bv8>, f: seq<bv8>, g: seq<bv8>)
    requires |d| <= |f| <= |g| && f == g[..|f|]
    ensures Overlay(d, 0, f) == Overlay(d, 0, g)
  {
    forall k | 0 <= k < |d| ensures Overlay(d, 0, f)[k] == Overlay(d, 0, g)[k] {}
  }

  /** Copying the next piece of a transfer, clipped to the end of the buffer,
      right after the bytes already copied, extends the overlay by that
      piece. */
  lemma OverlayExtend(d: seq<bv8>, start: nat, f: seq<bv8>, x: seq<bv8>)
    requires start <= |d|
    ensures var pos := Min(start + |f|, |d|);
      pos + Min(|x|, |d| - pos) <= |d| &&
      Overlay(Overlay(d, start, f), pos, x[..Min(|x|, |d| - pos)]) == Overlay(d, start, f + x)
  {
    var pos := Min(start + |f|, |d|);
    var len := Min(|x|, |d| - pos);
    var lhs := Overlay(Overlay(d, start, f), pos, x[..len]);
    var rhs := Overlay(d, start, f + x);
    forall k | 0 <= k < |d| ensures lhs[k] == rhs[k] {
      if pos <= k < pos + len {
        assert pos == start + |f|;
      }
    }
  }

  /** Filling the next piece of a caller's buffer from the first `q + len`
      bytes of `src`, right after the `q` bytes already filled, extends the
      filled prefix. Once a piece was cut short (`q < off`) nothing more is
      filled. */
  lemma FillExtend(buf: seq<bv8>, src: seq<bv8>, q: nat, off: nat, len: nat)
    requires q <= off && off + len <= |buf| && q + len <= |src|
    requires q < off ==> len == 0
    ensures Overlay(Overlay(buf, 0, src[..q]), off, src[q..q + len]) == Overlay(buf, 0, src[..q + len])
  {
    var lhs := Overlay(Overlay(buf, 0, src[..q]), off, src[q..q + len]);
    var rhs := Overlay(buf, 0, src[..q + len]);
    forall k | 0 <= k < |buf| ensures lhs[k] == rhs[k] {
      if off <= k < off + len {
        assert q == off;
      }
    }
  }

  /** The sum of a list of segment lengths. */
  function Total(lens: seq<nat>): (t: nat)
  {
    if lens == [] then 0 else Total(lens[..|lens| - 1]) + lens[|lens| - 1]
  }

  lemma TotalSnoc(lens: seq<nat>, i: nat)
    requires i < |lens|
    ensures Total(lens[..i + 1]) == Total(lens[..i]) + lens[i]
  {
    assert lens[..i + 1][..i] == lens[..i];
  }

  /** Longer prefixes of a segment list cover at least as many bytes. */
  lemma {:induction false} TotalMono(lens: seq<nat>, i: nat, j: nat)
    requires i <= j <= |lens|
    ensures Total(lens[..i]) <= Total(lens[..j])
    decreases j - i
  {
    if i < j {
      TotalSnoc(lens, j - 1);
      TotalMono(lens, i, j - 1);
    }
  }
}
