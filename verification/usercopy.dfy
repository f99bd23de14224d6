/** copy_to_user over a caller buffer. The array stands for the caller's
    mapped memory: bytes that land inside it are copied, and the count of
    bytes that fall beyond its end is returned, as copy_to_user reports a
    fault. */
module UserCopy {
  import opened Bytes

  /** Bytes of a `n`-byte copy to offset `off` that land in `len` mapped bytes. */
  function Landed(len: nat, off: nat, n: nat): (k: nat)
    ensures k <= n && (off + k <= len || (k == 0 && off > len))
    ensures k < n ==> off + k >= len
  {
    if off >= len then 0 else Min(n, len - off)
  }

  method CopyToUser(user: array<bv8>, off: nat, src: seq<bv8>) returns (notCopied: nat)
    modifies user
    ensures notCopied == |src| - Landed(user.Length, off, |src|)
    ensures user[..] == Overlay(old(user[..]), off, src)
  {
    var k := Landed(user.Length, off, |src|);
    forall i | off <= i < off + k {
      user[i] := src[i - off];
    }
    notCopied := |src| - k;
    assert user[..] == Overlay(old(user[..]), off, src) by {
      forall i | 0 <= i < user.Length ensures user[..][i] == Overlay(old(user[..]), off, src)[i] {
        if off <= i < off + |src| { assert i < off + k; }
      }
    }
  }
}
