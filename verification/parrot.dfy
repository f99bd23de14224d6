/** The parrot sample character device (sysfs_sample_parrot_drv): messages
    written to a sysfs attribute are queued in a byte FIFO of `size` bytes,
    their lengths in a circular table of `max` slots with a read and a write
    index; a reader of the device node gets one message per read, the oldest
    first, and in one-shot mode only one message per open. The device admits
    a single reader at a time. */
module Parrot {
  import opened Bytes
  import opened Errno
  import opened Decimal
  import opened UserCopy

  /** The access-mode bits of open(2)'s flags. */
  const O_ACCMODE: bv32 := 3
  const O_WRONLY: bv32 := 1
  const O_RDWR: bv32 := 2

  /** The messages' bytes, back to back, as the byte FIFO holds them. */
  function Flatten(ms: seq<seq<bv8>>): (flat: seq<bv8>)
  {
    if ms == [] then [] else ms[0] + Flatten(ms[1..])
  }

  lemma {:induction false} FlattenSnoc(ms: seq<seq<bv8>>, m: seq<bv8>)
    ensures Flatten(ms + [m]) == Flatten(ms) + m
  {
    if ms != [] {
      assert (ms + [m])[1..] == ms[1..] + [m];
      FlattenSnoc(ms[1..], m);
    }
  }

  /** The oldest message is at the front of the FIFO's bytes. */
  lemma FlattenFront(ms: seq<seq<bv8>>)
    requires ms != []
    ensures |ms[0]| <= |Flatten(ms)| && Flatten(ms)[..|ms[0]|] == ms[0]
    ensures Flatten(ms)[|ms[0]|..] == Flatten(ms[1..])
  {
  }

  /** An index advanced one slot around a table of `max` slots, as the
      driver advances both of its indices. */
  function Next(i: nat, max: nat): (j: nat)
    requires 0 < max
    ensures j < max
  {
    (i + 1) % max
  }

  /** The slot `k` places after `rd`. */
  function Slot(rd: nat, k: nat, max: nat): (s: nat)
    requires rd < max && k < max
    ensures s < max
  {
    if rd + k < max then rd + k else rd + k - max
  }

  /** Advancing the slot `k` places after `rd` gives the next one; after
      `max - 1` places it comes back round to `rd`. */
  lemma NextSlot(rd: nat, k: nat, max: nat)
    requires rd < max && k < max
    ensures k + 1 < max ==> Next(Slot(rd, k, max), max) == Slot(rd, k + 1, max)
    ensures k + 1 == max ==> Next(Slot(rd, k, max), max) == rd
  {
    var s := Slot(rd, k, max);
    if s + 1 < max {
      assert (s + 1) % max == s + 1;
    } else {
      assert s + 1 == max && (s + 1) % max == 0;
    }
  }

  /** Distinct places after `rd`, within one turn, are distinct slots. */
  lemma SlotInjective(rd: nat, j: nat, k: nat, max: nat)
    requires rd < max && j < max && k < max && j != k
    ensures Slot(rd, j, max) != Slot(rd, k, max)
  {
  }

  /** The table `lens` records, from slot `rd` on, the lengths of `ms`. */
  predicate Recorded(lens: seq<nat>, rd: nat, ms: seq<seq<bv8>>)
  {
    rd < |lens| && |ms| < |lens| &&
    forall k :: 0 <= k < |ms| ==> lens[Slot(rd, k, |lens|)] == |ms[k]|
  }

  /** Retiring the oldest message and its slot keeps the record. */
  lemma RecordedRetire(lens: seq<nat>, rd: nat, ms: seq<seq<bv8>>)
    requires Recorded(lens, rd, ms) && ms != []
    ensures Recorded(lens, Next(rd, |lens|), ms[1..])
  {
    forall k | 0 <= k < |ms| - 1 ensures lens[Slot(Next(rd, |lens|), k, |lens|)] == |ms[1..][k]| {
      SlotShift(rd, k, |lens|);
    }
  }

  /** Recording a new message's length in the slot after the pending ones
      keeps the record, as long as a slot stays free. */
  lemma RecordedAppend(lens: seq<nat>, rd: nat, ms: seq<seq<bv8>>, m: seq<bv8>)
    requires Recorded(lens, rd, ms) && |ms| + 1 < |lens|
    ensures Recorded(lens[Slot(rd, |ms|, |lens|) := |m|], rd, ms + [m])
  {
    var lens' := lens[Slot(rd, |ms|, |lens|) := |m|];
    forall k | 0 <= k < |ms| ensures lens'[Slot(rd, k, |lens|)] == |(ms + [m])[k]| {
      SlotInjective(rd, k, |ms|, |lens|);
    }
  }

  /** The bytes kfifo_to_user takes from the front of the FIFO when the
      length table asks for `len` of them: never more than the FIFO holds. */
  function Delivered(fifo: seq<bv8>, len: nat): (out: seq<bv8>)
    ensures |out| == Min(len, |fifo|) && out == fifo[..|out|]
  {
    fifo[..Min(len, |fifo|)]
  }

  /** The FIFO after kfifo_to_user has copied those bytes into `room`
      mapped bytes of the caller's buffer: only the bytes that landed are
      consumed. */
  function AfterRead(fifo: seq<bv8>, len: nat, room: nat): (rest: seq<bv8>)
    ensures |rest| == |fifo| - Min(Min(len, |fifo|), room)
    ensures rest == fifo[|fifo| - |rest|..]
  {
    fifo[Min(Min(len, |fifo|), room)..]
  }

  lemma FlattenEmpty(ms: seq<seq<bv8>>)
    requires Flatten(ms) != []
    ensures ms != []
  {
  }

  /** A read that faults after `room` bytes of the oldest message leaves the
      message's unread tail in front of the next message, while its slot in
      the length table is retired: the FIFO no longer starts at a message. */
  lemma ReadFaultDesyncs(ms: seq<seq<bv8>>, room: nat)
    requires ms != [] && room < |ms[0]|
    ensures AfterRead(Flatten(ms), |ms[0]|, room) == ms[0][room..] + Flatten(ms[1..])
    ensures AfterRead(Flatten(ms), |ms[0]|, room) != Flatten(ms[1..])
  {
    FlattenFront(ms);
    assert Flatten(ms) == ms[0] + Flatten(ms[1..]);
    assert (ms[0] + Flatten(ms[1..]))[room..] == ms[0][room..] + Flatten(ms[1..]);
  }

  /** Two queued messages 1 2 3 and 4 5, read into a buffer of which only
      one byte is mapped: the read faults, and the next read returns 2 3,
      the first message's tail cut to the second message's length. */
  lemma ReadFaultExample()
    ensures var ms: seq<seq<bv8>> := [[1, 2, 3], [4, 5]];
      var rest := AfterRead(Flatten(ms), 3, 1);
      rest == [2, 3, 4, 5] && Delivered(rest, |ms[1]|) == [2, 3]
  {
    var ms: seq<seq<bv8>> := [[1, 2, 3], [4, 5]];
    assert ms[1..][1..] == [];
    assert Flatten(ms) == [1, 2, 3, 4, 5];
  }

  /** With the faulted message's tail skipped, the FIFO after a read starts
      at the next message whether or not the copy faulted. */
  lemma SkipTailAligned(ms: seq<seq<bv8>>)
    requires ms != []
    ensures Flatten(ms)[Min(|ms[0]|, |Flatten(ms)|)..] == Flatten(ms[1..])
  {
    FlattenFront(ms);
  }

  /** A FIFO in step with its length table: the table from `rd` on records
      the lengths of the messages `ms`, the write index is the slot after
      them, and the FIFO holds their bytes back to back. */
  predicate InStep(fifo: seq<bv8>, lens: seq<nat>, rd: nat, wr: nat, ms: seq<seq<bv8>>)
  {
    Recorded(lens, rd, ms) && wr == Slot(rd, |ms|, |lens|) && fifo == Flatten(ms)
  }

  /** A read from a non-empty FIFO in step with its table delivers the
      oldest message. If all of it lands, or if the rest of it is skipped,
      the FIFO stays in step with the table from the next slot on; if the
      copy faults and the rest stays, the FIFO starts with that rest and is
      out of step. */
  lemma ReadInStep(fifo: seq<bv8>, lens: seq<nat>, rd: nat, wr: nat, ms: seq<seq<bv8>>, room: nat)
    requires InStep(fifo, lens, rd, wr, ms) && fifo != []
    ensures ms != [] && rd < |lens| && Delivered(fifo, lens[rd]) == ms[0]
    ensures InStep(fifo[|ms[0]|..], lens, Next(rd, |lens|), wr, ms[1..])
    ensures |ms[0]| <= room ==> InStep(AfterRead(fifo, lens[rd], room), lens, Next(rd, |lens|), wr, ms[1..])
    ensures |ms[0]| > room ==> AfterRead(fifo, lens[rd], room) == ms[0][room..] + Flatten(ms[1..])
    ensures |ms[0]| > room ==> !InStep(AfterRead(fifo, lens[rd], room), lens, Next(rd, |lens|), wr, ms[1..])
  {
    FlattenEmpty(ms);
    FlattenFront(ms);
    RecordedRetire(lens, rd, ms);
    assert Slot(rd, 0, |lens|) == rd;
    SlotShift(rd, |ms| - 1, |lens|);
    if |ms[0]| > room {
      ReadFaultDesyncs(ms, room);
    }
  }

  class Device {
    /** PARROT_MSG_FIFO_SIZE and PARROT_MSG_FIFO_MAX. */
    const size: nat
    const max: nat
    /** The one_shot module parameter, writable at run time through sysfs. */
    var oneShot: bool

    var fifo: seq<bv8>
    var msgLen: array<nat>
    var rd: nat
    var wr: nat
    var messageRead: bool
    /** The device mutex, held from a successful open until close. */
    var busy: bool

    /** The messages still to be read, oldest first. */
    ghost var msgs: seq<seq<bv8>>

    ghost predicate Valid()
      reads this
    {
      0 < max && msgLen.Length == max && rd < max && wr < max && |fifo| <= size
    }

    /** The FIFO and the length table agree: the table's slots from `rd` up to
        `wr` hold the lengths of the pending messages, whose bytes are the
        FIFO's, in order. */
    ghost predicate Aligned()
      reads this, msgLen
    {
      Valid() && InStep(fifo, msgLen[..], rd, wr, msgs)
    }

    /** Module load (parrot_module_init, after its registrations): an empty
        FIFO, both indices at 0, nobody holding the device. */
    constructor (size: nat, max: nat, oneShot: bool)
      requires 0 < max
      ensures this.size == size && this.max == max && this.oneShot == oneShot
      ensures Aligned() && fresh(msgLen)
      ensures fifo == [] && msgs == [] && rd == 0 && wr == 0 && !messageRead && !busy
    {
      this.size := size;
      this.max := max;
      this.oneShot := oneShot;
      fifo := [];
      msgLen := new nat[max];
      rd, wr := 0, 0;
      messageRead, busy := false, false;
      msgs := [];
    }

    /** A write to the one_shot parameter's sysfs file: the next read sees
        the new mode. */
    method SetOneShot(b: bool)
      modifies this
      ensures oneShot == b
      ensures fifo == old(fifo) && msgLen == old(msgLen) && rd == old(rd) && wr == old(wr)
      ensures msgs == old(msgs) && messageRead == old(messageRead) && busy == old(busy)
    {
      oneShot := b;
    }

    /** parrot_device_open: opens for writing are refused, and so is a second
        opener while the device is held; a successful open takes the device
        and re-arms the one-shot read. */
    method Open(flags: bv32) returns (r: int)
      modifies this
      ensures var mode := flags & O_ACCMODE;
        if mode == O_WRONLY || mode == O_RDWR then r == -EACCES && busy == old(busy) && messageRead == old(messageRead)
        else if old(busy) then r == -EBUSY && busy && messageRead == old(messageRead)
        else r == 0 && busy && !messageRead
      ensures fifo == old(fifo) && msgLen == old(msgLen) && rd == old(rd) && wr == old(wr) && msgs == old(msgs)
      ensures oneShot == old(oneShot)
    {
      var mode := flags & O_ACCMODE;
      if mode == O_WRONLY || mode == O_RDWR {
        return -EACCES;
      }
      if busy {
        return -EBUSY;
      }
      busy := true;
      messageRead := false;
      return 0;
    }

    /** parrot_device_close: the device is released. */
    method Close() returns (r: int)
      modifies this
      ensures r == 0 && !busy
      ensures fifo == old(fifo) && msgLen == old(msgLen) && rd == old(rd) && wr == old(wr)
      ensures msgs == old(msgs) && messageRead == old(messageRead) && oneShot == old(oneShot)
    {
      busy := false;
      return 0;
    }

    /** kfifo_to_user's copy of the recorded length's worth of FIFO bytes
        into the caller's buffer; `n` is how many it tried to copy. */
    method CopyOut(user: array<bv8>) returns (n: nat, notCopied: nat)
      requires Valid() && user as object != msgLen as object
      modifies user
      ensures n == |Delivered(fifo, msgLen[rd])| && user[..] == Overlay(old(user[..]), 0, Delivered(fifo, msgLen[rd]))
      ensures notCopied == n - Min(n, user.Length)
    {
      n := Min(msgLen[rd], |fifo|);
      notCopied := CopyToUser(user, 0, fifo[..n]);
    }

    /** The part of parrot_device_read past its two early returns: the
        recorded length's worth of FIFO bytes is copied out, only the bytes
        that landed leave the FIFO, and the read index advances whether or
        not the copy faulted. */
    method TakeMessage(user: array<bv8>) returns (r: int)
      requires Valid() && user as object != msgLen as object && fifo != []
      modifies this, user
      ensures Valid() && msgLen == old(msgLen) && wr == old(wr) && busy == old(busy) && oneShot == old(oneShot)
      ensures var out := Delivered(old(fifo), old(msgLen[rd]));
        messageRead && rd == Next(old(rd), max) && user[..] == Overlay(old(user[..]), 0, out) &&
        fifo == AfterRead(old(fifo), old(msgLen[rd]), user.Length) &&
        r == (if |out| <= user.Length then |out| else -EFAULT) &&
        msgs == (if old(msgs) == [] then [] else old(msgs)[1..])
    {
      var n, notCopied := CopyOut(user);
      var copied := n - notCopied;
      fifo := fifo[copied..];
      rd := Next(rd, max);
      messageRead := true;
      if msgs != [] {
        msgs := msgs[1..];
      }
      if notCopied > 0 {
        return -EFAULT;
      }
      return copied;
    }

    /** parrot_device_read: in one-shot mode, nothing after the first message
        since open; nothing from an empty FIFO; otherwise as many bytes as
        the length table records at the read index, whatever `length` the
        caller asked for, are copied from the FIFO to the caller's buffer
        (user memory, never the driver's own table) and the read index
        advances. If the buffer faults, only the bytes that landed leave the
        FIFO and EFAULT is returned, yet the index has moved on: from then on
        the FIFO no longer starts at the message the table points to. */
    method Read(user: array<bv8>, length: nat) returns (r: int)
      requires Valid() && user as object != msgLen as object
      modifies this, user
      ensures Valid() && msgLen == old(msgLen) && wr == old(wr) && busy == old(busy) && oneShot == old(oneShot)
      ensures (oneShot && old(messageRead)) || old(fifo) == [] ==>
        r == 0 && fifo == old(fifo) && rd == old(rd) && msgs == old(msgs) &&
        messageRead == old(messageRead) && user[..] == old(user[..])
      ensures !(oneShot && old(messageRead)) && old(fifo) != [] ==>
        (var out := Delivered(old(fifo), old(msgLen[rd]));
         messageRead && rd == Next(old(rd), max) && user[..] == Overlay(old(user[..]), 0, out) &&
         fifo == AfterRead(old(fifo), old(msgLen[rd]), user.Length) &&
         r == (if |out| <= user.Length then |out| else -EFAULT) &&
         msgs == (if old(msgs) == [] then [] else old(msgs)[1..]))
      ensures old(Aligned()) && !(oneShot && old(messageRead)) && old(fifo) != [] ==>
        (var m := old(msgs)[0];
         Delivered(old(fifo), old(msgLen[rd])) == m &&
         (r == |m| <==> Aligned()) &&
         (r != |m| ==> r == -EFAULT && fifo == m[user.Length..] + Flatten(msgs)))
      ensures old(Aligned()) && ((oneShot && old(messageRead)) || old(fifo) == []) ==> Aligned()
    {
      if oneShot && messageRead {
        return 0;
      }
      if fifo == [] {
        return 0;
      }
      if Aligned() {
        ReadInStep(fifo, msgLen[..], rd, wr, msgs, user.Length);
      }
      r := TakeMessage(user);
    }

    /** TakeMessage with a faulting copy dropping the rest of the message
        along with its slot. */
    method SkipMessage(user: array<bv8>) returns (r: int)
      requires Valid() && user as object != msgLen as object && fifo != []
      modifies this, user
      ensures Valid() && msgLen == old(msgLen) && wr == old(wr) && busy == old(busy) && oneShot == old(oneShot)
      ensures var out := Delivered(old(fifo), old(msgLen[rd]));
        messageRead && rd == Next(old(rd), max) && user[..] == Overlay(old(user[..]), 0, out) &&
        fifo == old(fifo)[|out|..] &&
        r == (if |out| <= user.Length then |out| else -EFAULT) &&
        msgs == (if old(msgs) == [] then [] else old(msgs)[1..])
    {
      var n, notCopied := CopyOut(user);
      fifo := fifo[n..];
      rd := Next(rd, max);
      messageRead := true;
      if msgs != [] {
        msgs := msgs[1..];
      }
      if notCopied > 0 {
        return -EFAULT;
      }
      return n;
    }

    /** parrot_device_read with the fault handled so the FIFO stays in step
        with the length table: after a fault the rest of the message is
        skipped along with its slot. */
    method ReadSkippingFault(user: array<bv8>, length: nat) returns (r: int)
      requires Valid() && user as object != msgLen as object
      modifies this, user
      ensures Valid() && msgLen == old(msgLen) && wr == old(wr) && busy == old(busy) && oneShot == old(oneShot)
      ensures (oneShot && old(messageRead)) || old(fifo) == [] ==>
        r == 0 && fifo == old(fifo) && rd == old(rd) && msgs == old(msgs) &&
        messageRead == old(messageRead) && user[..] == old(user[..])
      ensures !(oneShot && old(messageRead)) && old(fifo) != [] ==>
        (var out := Delivered(old(fifo), old(msgLen[rd]));
         messageRead && rd == Next(old(rd), max) && user[..] == Overlay(old(user[..]), 0, out) &&
         fifo == old(fifo)[|out|..] &&
         r == (if |out| <= user.Length then |out| else -EFAULT) &&
         msgs == (if old(msgs) == [] then [] else old(msgs)[1..]))
      ensures old(Aligned()) ==> Aligned()
    {
      if oneShot && messageRead {
        return 0;
      }
      if fifo == [] {
        return 0;
      }
      if Aligned() {
        ReadInStep(fifo, msgLen[..], rd, wr, msgs, user.Length);
      }
      r := SkipMessage(user);
    }

    /** sysfs_add_to_fifo: a message that does not fit in the FIFO's free
        space, or that would fill the length table's last slot, is refused
        with ENOSPC and nothing changes; otherwise it is queued whole, its
        length is recorded at the write index and the write index advances.
        A FIFO in step with its table stays so. */
    method AddToFifo(buf: seq<bv8>) returns (r: int)
      requires Valid()
      modifies this, msgLen
      ensures Valid() && msgLen == old(msgLen)
      ensures rd == old(rd) && messageRead == old(messageRead) && busy == old(busy) && oneShot == old(oneShot)
      ensures r == -ENOSPC <==> size - |old(fifo)| < |buf| || Next(old(wr), max) == rd
      ensures r == -ENOSPC ==>
        fifo == old(fifo) && msgs == old(msgs) && wr == old(wr) && msgLen[..] == old(msgLen[..])
      ensures r != -ENOSPC ==>
        r == |buf| && fifo == old(fifo) + buf && msgs == old(msgs) + [buf] &&
        wr == Next(old(wr), max) && msgLen[..] == old(msgLen[..])[old(wr) := |buf|]
      ensures old(Aligned()) ==> Aligned()
    {
      ghost var aligned := Aligned();
      if size - |fifo| < |buf| {
        return -ENOSPC;
      }
      if Next(wr, max) == rd {
        return -ENOSPC;
      }
      var copied := Min(|buf|, size - |fifo|);
      if aligned {
        TableFull(this);
        RecordedAppend(msgLen[..], rd, msgs, buf);
        NextSlot(rd, |msgs|, max);
        FlattenSnoc(msgs, buf);
      }
      fifo := fifo + buf[..copied];
      msgLen[wr] := copied;
      wr := Next(wr, max);
      msgs := msgs + [buf];
      assert buf[..copied] == buf;
      return copied;
    }

    /** sysfs_reset: the FIFO is emptied and both indices go back to 0; the
        store's byte count is returned. */
    method Reset(count: nat) returns (r: int)
      requires Valid()
      modifies this
      ensures r == count && Aligned()
      ensures fifo == [] && msgs == [] && rd == 0 && wr == 0
      ensures msgLen == old(msgLen) && messageRead == old(messageRead) && busy == old(busy)
      ensures oneShot == old(oneShot)
    {
      fifo := [];
      rd, wr := 0, 0;
      msgs := [];
      return count;
    }

    /** sysfs_fifo_status_read: the read index in decimal and a newline. */
    function StatusRead(): (s: string)
      reads this
      ensures |s| >= 2 && s[|s| - 1] == '\n' && Denotes(s[..|s| - 1], rd)
    {
      ParseFormat(rd);
      assert (FormatInt(rd) + "\n")[..|FormatInt(rd)|] == FormatInt(rd);
      FormatInt(rd) + "\n"
    }

    /** sysfs_fifo_status_written: the write index in decimal and a newline. */
    function StatusWritten(): (s: string)
      reads this
      ensures |s| >= 2 && s[|s| - 1] == '\n' && Denotes(s[..|s| - 1], wr)
    {
      ParseFormat(wr);
      assert (FormatInt(wr) + "\n")[..|FormatInt(wr)|] == FormatInt(wr);
      FormatInt(wr) + "\n"
    }
  }

  /** Retiring the oldest slot moves every later message one place nearer
      the read index. */
  lemma SlotShift(rd: nat, k: nat, max: nat)
    requires rd < max && k + 1 < max
    ensures Slot(Next(rd, max), k, max) == Slot(rd, k + 1, max)
  {
    NextSlot(rd, 0, max);
    if rd + 1 < max {
      assert Next(rd, max) == rd + 1 by { assert (rd + 1) % max == rd + 1; }
    } else {
      assert Next(rd, max) == 0 by { assert (rd + 1) % max == 0; }
    }
  }

  /** The length table is full, and further messages are refused, exactly
      when `max - 1` messages are pending: one slot is always left free. */
  lemma TableFull(d: Device)
    requires d.Aligned()
    ensures Next(d.wr, d.max) == d.rd <==> |d.msgs| == d.max - 1
  {
    NextSlot(d.rd, |d.msgs|, d.max);
    if |d.msgs| + 1 < d.max {
      SlotInjective(d.rd, |d.msgs| + 1, 0, d.max);
      assert Slot(d.rd, 0, d.max) == d.rd;
    }
  }
}
