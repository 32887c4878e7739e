/** The slot pool of the message pipes (rsio.c). */
module Pool {
  const MAX_IO_PIPES := 2048

  /** How many of the first n slots are in use. */
  function Used(s: seq<bool>, n: nat): (u: nat)
    requires n <= |s|
    ensures u <= n
  {
    if n == 0 then 0 else Used(s, n - 1) + if s[n - 1] then 1 else 0
  }

  /** All slots up to n are in use exactly if as many are counted. */
  lemma {:induction false} UsedAll(s: seq<bool>, n: nat)
    requires n <= |s|
    ensures Used(s, n) == n <==> forall i :: 0 <= i < n ==> s[i]
  {
    if n > 0 {
      UsedAll(s, n - 1);
    }
  }

  /** Slots that are free do not count. */
  lemma {:induction false} UsedBelow(s: seq<bool>, m: nat, n: nat)
    requires m <= n <= |s| && forall i :: m <= i < n ==> !s[i]
    ensures Used(s, n) == Used(s, m)
    decreases n
  {
    if m < n {
      UsedBelow(s, m, n - 1);
    }
  }

  /** Changing one slot changes the count by one. */
  lemma {:induction false} UsedUpdated(s: seq<bool>, k: nat, b: bool, n: nat)
    requires k < |s| && n <= |s| && s[k] != b
    ensures Used(s[k := b], n) == Used(s, n) + if k >= n then 0 else if b then 1 else -1
  {
    if n > 0 {
      UsedUpdated(s, k, b, n - 1);
    }
  }

  class IoPool {
    /** flags[i] says whether RSIO_IN_USE is set in slot i. */
    var flags: array<bool>
    var location: array<nat>
    var max: nat
    var count: int

    /** The count is right, everything from max on is free, and max is as low as possible. */
    ghost predicate Valid()
      reads this, flags, location
    {
      && flags.Length == location.Length == MAX_IO_PIPES && max <= MAX_IO_PIPES
      && count == Used(flags[..], MAX_IO_PIPES)
      && (forall i :: max <= i < MAX_IO_PIPES ==> !flags[i])
      && (max > 0 ==> flags[max - 1])
      && (forall i :: 0 <= i < MAX_IO_PIPES && flags[i] ==> location[i] == i)
    }

    constructor ()
      ensures Valid() && fresh(flags) && fresh(location) && forall i :: 0 <= i < MAX_IO_PIPES ==> !flags[i]
    {
      flags := new bool[MAX_IO_PIPES](_ => false);
      location := new nat[MAX_IO_PIPES](_ => 0);
      max, count := 0, 0;
      new;
      UsedBelow(flags[..], 0, MAX_IO_PIPES);
    }

    /** rsio_new, with the outcome of socketpair. It fails if that failed or if every slot is in
        use, and only then; otherwise the lowest free slot is taken. */
    method New(connected: bool) returns (io: int)
      requires Valid()
      modifies this`max, this`count, flags, location
      ensures Valid() && -1 <= io < 2048 == flags.Length
      ensures io < 0 <==> !connected || forall i :: 0 <= i < 2048 ==> old(flags[i])
      ensures io < 0 ==> flags[..] == old(flags[..]) && max == old(max) && count == old(count)
      ensures io >= 0 ==> !old(flags[io]) && flags[..] == old(flags[..])[io := true]
      ensures io >= 0 ==> forall j :: 0 <= j < io ==> old(flags[j])
    {
      var i := max;
      UsedBelow(flags[..], max, MAX_IO_PIPES);
      UsedAll(flags[..], max);
      if count < max {
        i := 0;
        while i < max && flags[i]
          invariant i <= max && forall j :: 0 <= j < i ==> flags[j]
        {
          i := i + 1;
        }
      }
      if i >= MAX_IO_PIPES {
        return -1;
      }
      if !connected {
        return -1;
      }
      UsedUpdated(flags[..], i, true, MAX_IO_PIPES);
      flags[i] := true;
      assert flags[..] == old(flags[..])[i := true];
      location[i] := i;
      count := count + 1;
      if max == i {
        max := max + 1;
      }
      io := i;
    }

    /** rsio_free: exactly that slot becomes free, the count goes down and the bound as far as it
        can. The count stays right for a live handle; freeing one again counts it once too often,
        unless the bound has gone below it. */
    method Free(io: nat)
      requires Valid() && io < MAX_IO_PIPES
      modifies this`max, this`count, flags
      ensures flags[..] == old(flags[..])[io := false]
      ensures Valid() <==> old(flags[io]) || old(location[io]) >= old(max)
      ensures !Valid() ==> count == Used(flags[..], MAX_IO_PIPES) - 1
    {
      if flags[io] {
        UsedUpdated(flags[..], io, false, MAX_IO_PIPES);
      } else {
        assert flags[..][io := false] == flags[..];
      }
      flags[io] := false;
      assert flags[..] == old(flags[..])[io := false];
      if location[io] < max {
        count := count - 1;
        while max > 0 && !flags[max - 1]
          modifies this`max
          invariant max <= MAX_IO_PIPES && forall i :: max <= i < MAX_IO_PIPES ==> !flags[i]
        {
          max := max - 1;
        }
        assert flags[..] == old(flags[..])[io := false];
      }
    }
  }
}
