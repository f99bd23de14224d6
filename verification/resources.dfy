/** Kernel resources that the drivers' set-up and tear-down paths acquire and
    release, recorded as an explicit log. A leak-free error path is one whose
    log adds as many releases as acquisitions, in reverse order. */
module Resources {

  datatype Kind =
    | DeviceStruct      // kzalloc of the driver's device structure
    | DataBuffer        // kvzalloc/vmalloc of the backing store
    | TagSet            // blk_mq_alloc_tag_set
    | GenDisk           // allocated gendisk (with its queue)
    | DiskAdded         // add_disk: the disk is live
    | RequestQueue      // blk_init_queue
    | BlockMajor        // register_blkdev
    | DriverContext     // kzalloc of a USB driver's context
    | InputDevice       // input_allocate_device
    | DmaBuffer         // usb_alloc_coherent
    | Urb               // usb_alloc_urb
    | InputRegistration // input_register_device

  datatype Event = Acquire(kind: Kind) | Release(kind: Kind)

  function Acquires(ks: seq<Kind>): (es: seq<Event>)
    ensures |es| == |ks| && forall i :: 0 <= i < |ks| ==> es[i] == Acquire(ks[i])
  {
    seq(|ks|, i requires 0 <= i < |ks| => Acquire(ks[i]))
  }

  lemma AcquiresSnoc(ks: seq<Kind>, k: Kind)
    ensures Acquires(ks + [k]) == Acquires(ks) + [Acquire(k)]
  {
    assert Acquires(ks + [k])[..|ks|] == Acquires(ks);
  }

  function Releases(ks: seq<Kind>): (es: seq<Event>)
    ensures |es| == |ks| && forall i :: 0 <= i < |ks| ==> es[i] == Release(ks[i])
  {
    seq(|ks|, i requires 0 <= i < |ks| => Release(ks[i]))
  }

  function Reverse(ks: seq<Kind>): (r: seq<Kind>)
    ensures |r| == |ks| && forall i :: 0 <= i < |ks| ==> r[i] == ks[|ks| - 1 - i]
  {
    seq(|ks|, i requires 0 <= i < |ks| => ks[|ks| - 1 - i])
  }

  /** What the log leaves outstanding: each acquisition adds one resource of
      its kind, each release removes one. */
  function Balance(log: seq<Event>): (b: multiset<Kind>)
  {
    if log == [] then multiset{}
    else if log[|log| - 1].Acquire? then Balance(log[..|log| - 1]) + multiset{log[|log| - 1].kind}
    else Balance(log[..|log| - 1]) - multiset{log[|log| - 1].kind}
  }

  lemma BalanceSnoc(log: seq<Event>, e: Event)
    ensures e.Acquire? ==> Balance(log + [e]) == Balance(log) + multiset{e.kind}
    ensures e.Release? ==> Balance(log + [e]) == Balance(log) - multiset{e.kind}
  {
    assert (log + [e])[..|log|] == log;
  }

  lemma {:induction false} BalanceAcquires(log: seq<Event>, ks: seq<Kind>)
    ensures Balance(log + Acquires(ks)) == Balance(log) + multiset(ks)
  {
    if ks == [] {
      assert log + Acquires(ks) == log;
    } else {
      var n := |ks| - 1;
      var l0 := log + Acquires(ks[..n]);
      calc {
        Balance(log + Acquires(ks));
        { assert Acquires(ks) == Acquires(ks[..n]) + [Acquire(ks[n])];
          assert log + Acquires(ks) == l0 + [Acquire(ks[n])];
          BalanceSnoc(l0, Acquire(ks[n])); }
        Balance(l0) + multiset{ks[n]};
        { BalanceAcquires(log, ks[..n]); }
        Balance(log) + multiset(ks[..n]) + multiset{ks[n]};
        { assert ks == ks[..n] + [ks[n]]; }
        Balance(log) + multiset(ks);
      }
    }
  }

  lemma {:induction false} BalanceReleases(log: seq<Event>, ks: seq<Kind>)
    ensures Balance(log + Releases(ks)) == Balance(log) - multiset(ks)
  {
    if ks == [] {
      assert log + Releases(ks) == log;
    } else {
      var n := |ks| - 1;
      var l0 := log + Releases(ks[..n]);
      calc {
        Balance(log + Releases(ks));
        { assert Releases(ks) == Releases(ks[..n]) + [Release(ks[n])];
          assert log + Releases(ks) == l0 + [Release(ks[n])];
          BalanceSnoc(l0, Release(ks[n])); }
        Balance(l0) - multiset{ks[n]};
        { BalanceReleases(log, ks[..n]); }
        Balance(log) - multiset(ks[..n]) - multiset{ks[n]};
        { assert ks == ks[..n] + [ks[n]]; }
        Balance(log) - multiset(ks);
      }
    }
  }

  /** Acquiring a list of resources and releasing them in reverse order
      leaves nothing behind. */
  lemma Unwind(log: seq<Event>, ks: seq<Kind>)
    ensures Balance(log + Acquires(ks) + Releases(Reverse(ks))) == Balance(log)
  {
    BalanceAcquires(log, ks);
    BalanceReleases(log + Acquires(ks), Reverse(ks));
    assert multiset(Reverse(ks)) == multiset(ks) by { ReverseMultiset(ks); }
  }

  /** Acquiring `t` and then releasing `r`, where `t` holds `r` and `rest`
      besides, leaves `rest` outstanding. */
  lemma NetBalance(log: seq<Event>, t: seq<Kind>, r: seq<Kind>, rest: multiset<Kind>)
    requires multiset(t) == multiset(r) + rest
    ensures Balance(log + Acquires(t) + Releases(r)) == Balance(log) + rest
  {
    BalanceAcquires(log, t);
    BalanceReleases(log + Acquires(t), r);
    var b := Balance(log);
    assert forall x :: (b + multiset(t) - multiset(r))[x] == (b + rest)[x];
  }

  lemma {:induction false} ReverseMultiset(ks: seq<Kind>)
    ensures multiset(Reverse(ks)) == multiset(ks)
  {
    if ks != [] {
      ReverseMultiset(ks[1..]);
      assert Reverse(ks) == Reverse(ks[1..]) + [ks[0]];
      assert ks == [ks[0]] + ks[1..];
    }
  }

  /** The kernel's allocation state as seen by one driver. */
  class Registry {
    var log: seq<Event>

    constructor ()
      ensures log == []
    {
      log := [];
    }

    ghost function Outstanding(): (b: multiset<Kind>)
      reads this
    {
      Balance(log)
    }

    method Acquire(k: Kind)
      modifies this
      ensures log == old(log) + [Event.Acquire(k)]
    {
      log := log + [Event.Acquire(k)];
    }

    method Release(k: Kind)
      modifies this
      ensures log == old(log) + [Event.Release(k)]
    {
      log := log + [Event.Release(k)];
    }

    /** Acquire `k` as the next resource of a set-up function that has taken
        `held` since the log was `log0`. */
    method Take(ghost log0: seq<Event>, held: seq<Kind>, k: Kind) returns (held': seq<Kind>)
      requires log == log0 + Acquires(held)
      modifies this
      ensures held' == held + [k] && log == log0 + Acquires(held')
    {
      Acquire(k);
      AcquiresSnoc(held, k);
      held' := held + [k];
    }

    /** The fall-through chain of error labels at the end of a set-up
        function, entered with the resources `held` acquired since the log
        was `log0`: each is released, most recent first, so nothing is
        outstanding afterwards that was not before the set-up began. */
    method Rollback(ghost log0: seq<Event>, held: seq<Kind>)
      requires log == log0 + Acquires(held)
      modifies this
      ensures log == log0 + Acquires(held) + Releases(Reverse(held))
      ensures Outstanding() == Balance(log0)
    {
      var i := |held|;
      ghost var rev := Reverse(held);
      while i > 0
        invariant 0 <= i <= |held|
        invariant log == log0 + Acquires(held) + Releases(rev[..|held| - i])
      {
        assert rev[..|held| - i + 1] == rev[..|held| - i] + [held[i - 1]];
        Release(held[i - 1]);
        i := i - 1;
      }
      assert rev[..|held|] == rev;
      Unwind(log0, held);
    }
  }
}
