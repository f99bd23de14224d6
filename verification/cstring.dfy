/** NUL-terminated strings in fixed-size character buffers, and the kernel's
    bounded string routines (strlen, strscpy, strlcat of lib/string.c and a
    snprintf of an already formatted string) that fill them in place. */
module CString {
  import opened Errno

  const NUL: char := '\0'

  predicate NoNul(s: seq<char>)
  {
    forall i :: 0 <= i < |s| ==> s[i] != NUL
  }

  lemma NoNulConcat(a: seq<char>, b: seq<char>)
    requires NoNul(a) && NoNul(b)
    ensures NoNul(a + b)
  {
    forall i | 0 <= i < |a + b| ensures (a + b)[i] != NUL {
      if i >= |a| {
        assert (a + b)[i] == b[i - |a|];
      }
    }
  }

  /** The buffer `a` holds the C string `s`: its characters, then a NUL. */
  predicate Holds(a: seq<char>, s: seq<char>)
  {
    NoNul(s) && |s| < |a| && a[..|s|] == s && a[|s|] == NUL
  }

  /** A buffer holds at most one C string. */
  lemma HoldsUnique(a: seq<char>, s: seq<char>, t: seq<char>)
    requires Holds(a, s) && Holds(a, t)
    ensures s == t
  {
  }

  /** What a buffer of `size` characters keeps of `s`: at most `size - 1`
      characters, leaving room for the terminator. */
  function Truncate(s: seq<char>, size: nat): (r: seq<char>)
    requires size > 0
    ensures |r| < size && |r| <= |s| && r == s[..|r|]
    ensures |r| == if |s| < size then |s| else size - 1
  {
    if |s| < size then s else s[..size - 1]
  }

  lemma TruncateNoNul(s: seq<char>, size: nat)
    requires size > 0 && NoNul(s)
    ensures NoNul(Truncate(s, size))
  {
  }

  /** Appending to a truncated string and truncating again is truncating
      the whole concatenation: successive bounded appends lose nothing a
      single one would keep. */
  lemma TruncateConcat(a: seq<char>, b: seq<char>, size: nat)
    requires size > 0
    ensures Truncate(Truncate(a, size) + b, size) == Truncate(a + b, size)
  {
    if |a| >= size {
      var t := Truncate(a, size);
      assert (t + b)[..size - 1] == t;
      assert (a + b)[..size - 1] == t;
    }
  }

  /** `a` with `s` written over it from `off`. */
  function Put(a: seq<char>, off: nat, s: seq<char>): (r: seq<char>)
    requires off + |s| <= |a|
    ensures |r| == |a|
    ensures forall k :: 0 <= k < |a| ==> r[k] == if off <= k < off + |s| then s[k - off] else a[k]
  {
    a[..off] + s + a[off + |s|..]
  }

  /** Writing the tail of `t` and a NUL after a string that `t` extends
      leaves the buffer holding `t`. */
  lemma PutHolds(a: seq<char>, d: seq<char>, t: seq<char>)
    requires |t| < |a| && |d| <= |t| && NoNul(t) && a[..|d|] == d && t[..|d|] == d
    ensures Holds(Put(a, |d|, t[|d|..] + [NUL]), t)
  {
    var r := Put(a, |d|, t[|d|..] + [NUL]);
    assert r[..|t|] == t;
  }

  /** strlen. */
  method StrLen(a: array<char>, ghost s: seq<char>) returns (n: nat)
    requires Holds(a[..], s)
    ensures n == |s|
  {
    n := 0;
    while a[n] != NUL
      invariant n <= |s|
      decreases |s| - n
    {
      n := n + 1;
    }
  }

  /** strscpy(dst, src, sizeof(dst)): copies as much of `src` as fits,
      always terminates, and reports truncation as -E2BIG. */
  method StrScpy(dst: array<char>, src: seq<char>) returns (r: int)
    requires dst.Length > 0 && NoNul(src)
    modifies dst
    ensures dst[..] == Put(old(dst[..]), 0, Truncate(src, dst.Length) + [NUL])
    ensures Holds(dst[..], Truncate(src, dst.Length))
    ensures r == if |src| < dst.Length then |src| else -E2BIG
  {
    ghost var d0 := dst[..];
    var i := 0;
    while i < |src| && i < dst.Length - 1
      invariant i <= |src| && i < dst.Length
      invariant dst[..i] == src[..i] && dst[i..] == d0[i..]
    {
      dst[i] := src[i];
      assert dst[..i + 1] == dst[..i] + [src[i]];
      i := i + 1;
    }
    dst[i] := NUL;
    assert dst[..] == Put(d0, 0, Truncate(src, dst.Length) + [NUL]);
    PutHolds(d0, [], Truncate(src, dst.Length));
    if i < |src| {
      return -E2BIG;
    }
    return i;
  }

  /** strlcat(dst, src, sizeof(dst)): appends as much of `src` as fits after
      the string `d` already in `dst`, and returns the length the whole
      concatenation would have had. */
  method StrLCat(dst: array<char>, ghost d: seq<char>, src: seq<char>) returns (r: nat)
    requires Holds(dst[..], d) && NoNul(src)
    modifies dst
    ensures r == |d| + |src|
    ensures dst[..] == Put(old(dst[..]), |d|, Truncate(d + src, dst.Length)[|d|..] + [NUL])
    ensures Holds(dst[..], Truncate(d + src, dst.Length))
  {
    ghost var d0 := dst[..];
    var dsize := StrLen(dst, d);
    var len := |src|;
    r := dsize + len;
    var count := dst.Length - dsize;
    if len >= count {
      len := count - 1;
    }
    ghost var t := Truncate(d + src, dst.Length);
    assert t[dsize..] == src[..len];
    var i := 0;
    while i < len
      invariant i <= len
      invariant dst[..dsize + i] == d + src[..i] && dst[dsize + i..] == d0[dsize + i..]
    {
      dst[dsize + i] := src[i];
      assert dst[..dsize + i + 1] == dst[..dsize + i] + [src[i]];
      assert src[..i + 1] == src[..i] + [src[i]];
      i := i + 1;
    }
    dst[dsize + len] := NUL;
    assert dst[..] == Put(d0, dsize, t[dsize..] + [NUL]);
    PutHolds(d0, d, t);
  }

  /** snprintf(dst, sizeof(dst), ...) of a formatted text `s`: the buffer
      keeps what fits, and the result is the full length of `s`. */
  method FormatInto(dst: array<char>, s: seq<char>) returns (n: nat)
    requires dst.Length > 0 && NoNul(s)
    modifies dst
    ensures dst[..] == Put(old(dst[..]), 0, Truncate(s, dst.Length) + [NUL])
    ensures Holds(dst[..], Truncate(s, dst.Length))
    ensures n == |s|
  {
    var _ := StrScpy(dst, s);
    n := |s|;
  }
}
