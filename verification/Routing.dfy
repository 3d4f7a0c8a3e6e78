/** Which registers are read, and whether in kernel or in user mode. */
module Routing {
  import opened Bits
  import opened Parse
  import opened Support
  import opened Tables

  // ----- levels -----

  /** The level to use: the register's preferred one, or the one that was asked for. */
  function EffectiveLevel(q: Request): u32 {
    if And(q.pl, PREFERRED_PL) != 0 then q.ppl else q.pl
  }

  predicate ToKernel(q: Request) {
    And(EffectiveLevel(q), NS_PRIVILEGE_LEVEL_1) != 0
  }

  predicate ToUser(q: Request) {
    And(EffectiveLevel(q), NS_PRIVILEGE_LEVEL_0) != 0
  }

  predicate Routable(q: Request) {
    ToKernel(q) || ToUser(q)
  }

  function IoctlFor(q: Request): UsedIoctl {
    UsedIoctl(q.registerUid, q.cpu, q.part)
  }

  /** The level tests read single bits: bit 5 selects the preferred level, bits 1 and 0 of the
      effective level select kernel and user mode. */
  lemma LevelsAreBits(q: Request)
    ensures EffectiveLevel(q) == if Bit(q.pl, 5) == 1 then q.ppl else q.pl
    ensures ToKernel(q) <==> Bit(EffectiveLevel(q), 1) == 1
    ensures ToUser(q) <==> Bit(EffectiveLevel(q), 0) == 1
  {
    Pow2Values();
    AndBit(q.pl, 5);
    AndBit(EffectiveLevel(q), 1);
    AndBit(EffectiveLevel(q), 0);
  }

  // ----- what routing keeps -----

  /** Request `i` is the first routable request for its register. */
  ghost predicate FirstRoutable(reqs: seq<Request>, i: nat)
    requires i < |reqs|
  {
    && Routable(reqs[i])
    && forall j :: 0 <= j < i && Routable(reqs[j]) ==> reqs[j].registerUid != reqs[i].registerUid
  }

  /** The requests below `n` that are the first routable ones for their registers. */
  ghost function Kept(reqs: seq<Request>, n: nat): seq<Request>
    requires n <= |reqs|
  {
    if n == 0 then []
    else if FirstRoutable(reqs, n - 1) then Kept(reqs, n - 1) + [reqs[n - 1]]
    else Kept(reqs, n - 1)
  }

  /** The reads that go to the kernel, and those that go to user mode. */
  ghost function KernelReads(kept: seq<Request>): seq<UsedIoctl> {
    if kept == [] then []
    else
      var before, q := KernelReads(kept[..|kept| - 1]), kept[|kept| - 1];
      if ToKernel(q) then before + [IoctlFor(q)] else before
  }

  ghost function UserReads(kept: seq<Request>): seq<UsedIoctl> {
    if kept == [] then []
    else
      var before, q := UserReads(kept[..|kept| - 1]), kept[|kept| - 1];
      if ToUser(q) then before + [IoctlFor(q)] else before
  }

  ghost predicate Reads(ioctls: seq<UsedIoctl>, register: u32) {
    exists i :: 0 <= i < |ioctls| && ioctls[i].registerUid == register
  }

  ghost predicate RegistersDistinct(ioctls: seq<UsedIoctl>) {
    forall i, j :: 0 <= i < j < |ioctls| ==> ioctls[i].registerUid != ioctls[j].registerUid
  }

  ghost predicate RoutableBelow(reqs: seq<Request>, n: nat, register: u32)
    requires n <= |reqs|
  {
    exists j :: 0 <= j < n && Routable(reqs[j]) && reqs[j].registerUid == register
  }

  lemma ReadsExtended(ioctls: seq<UsedIoctl>, x: UsedIoctl, register: u32)
    ensures Reads(ioctls + [x], register) <==> Reads(ioctls, register) || x.registerUid == register
  {
    if Reads(ioctls, register) {
      var i :| 0 <= i < |ioctls| && ioctls[i].registerUid == register;
      assert (ioctls + [x])[i].registerUid == register;
    }
    assert (ioctls + [x])[|ioctls|] == x;
  }

  /** What routing has read after `n` requests is what was routable among them. */
  lemma {:induction false} RoutedSoFar(reqs: seq<Request>, n: nat, register: u32)
    requires n <= |reqs|
    ensures Reads(KernelReads(Kept(reqs, n)), register) || Reads(UserReads(Kept(reqs, n)), register)
       <==> RoutableBelow(reqs, n, register)
  {
    hide ToKernel, ToUser;
    if n > 0 {
      RoutedSoFar(reqs, n - 1, register);
      var q, before := reqs[n - 1], Kept(reqs, n - 1);
      assert RoutableBelow(reqs, n, register)
        <==> RoutableBelow(reqs, n - 1, register) || (Routable(q) && q.registerUid == register);
      if FirstRoutable(reqs, n - 1) {
        assert (before + [q])[..|before|] == before;
        ReadsExtended(KernelReads(before), IoctlFor(q), register);
        ReadsExtended(UserReads(before), IoctlFor(q), register);
      }
    }
  }

  // ----- the routing loop -----

  /** Searches one of the two lists for a register. */
  method FindRegister(list: ListHead<UsedIoctl>, register: u32) returns (found: bool)
    requires list.Valid()
    ensures found <==> Reads(list.contents, register)
  {
    var temp := list.head;
    ghost var i := 0;
    while temp != null
      invariant 0 <= i <= |list.contents| && temp == list.NodeAt(i)
      invariant forall k :: 0 <= k < i ==> list.contents[k].registerUid != register
      decreases |list.contents| - i
    {
      assert list.LinkedAt(i);
      if temp.data.registerUid == register {
        return true;
      }
      temp := temp.next;
      i := i + 1;
    }
    return false;
  }

  /** `breakout_add_ioctl`. */
  method AddIoctl(list: ListHead<UsedIoctl>, q: Request)
    requires list.Valid()
    modifies list, list.Nodes()
    ensures list.Valid() && fresh(list.Nodes() - old(list.Nodes()))
    ensures list.contents == old(list.contents) + [IoctlFor(q)]
  {
    list.Append(UsedIoctl(q.registerUid, q.cpu, q.part));
  }

  /** The level decision for a register that is on neither list. */
  method Route(q: Request, toDriver: ListHead<UsedIoctl>, toUsermode: ListHead<UsedIoctl>)
    requires toDriver.Valid() && toUsermode.Valid()
    requires toDriver != toUsermode && toDriver.Nodes() !! toUsermode.Nodes()
    modifies toDriver, toDriver.Nodes(), toUsermode, toUsermode.Nodes()
    ensures toDriver.Valid() && toUsermode.Valid() && toDriver.Nodes() !! toUsermode.Nodes()
    ensures fresh(toDriver.Nodes() - old(toDriver.Nodes())) && fresh(toUsermode.Nodes() - old(toUsermode.Nodes()))
    ensures toDriver.contents == old(toDriver.contents) + if ToKernel(q) then [IoctlFor(q)] else []
    ensures toUsermode.contents == old(toUsermode.contents) + if ToUser(q) then [IoctlFor(q)] else []
  {
    hide And, ListHead.Valid;
    if And(q.pl, PREFERRED_PL) != 0 {
      if And(q.ppl, NS_PRIVILEGE_LEVEL_0) != 0 {
        AddIoctl(toUsermode, q);
      }
      if And(q.ppl, NS_PRIVILEGE_LEVEL_1) != 0 {
        AddIoctl(toDriver, q);
      }
    } else {
      if And(q.pl, NS_PRIVILEGE_LEVEL_0) != 0 {
        AddIoctl(toUsermode, q);
      }
      if And(q.pl, NS_PRIVILEGE_LEVEL_1) != 0 {
        AddIoctl(toDriver, q);
      }
    }
  }

  /** One turn of the routing loop, with its `flag` that a search sets and only a hit resets. */
  method RouteOne(q: Request, toDriver: ListHead<UsedIoctl>, toUsermode: ListHead<UsedIoctl>, flagIn: nat)
      returns (flag: nat)
    requires toDriver.Valid() && toUsermode.Valid() && flagIn == 0
    requires toDriver != toUsermode && toDriver.Nodes() !! toUsermode.Nodes()
    modifies toDriver, toDriver.Nodes(), toUsermode, toUsermode.Nodes()
    ensures flag == 0
    ensures toDriver.Valid() && toUsermode.Valid() && toDriver.Nodes() !! toUsermode.Nodes()
    ensures fresh(toDriver.Nodes() - old(toDriver.Nodes())) && fresh(toUsermode.Nodes() - old(toUsermode.Nodes()))
    ensures
      var known := Reads(old(toDriver.contents), q.registerUid) || Reads(old(toUsermode.contents), q.registerUid);
      && toDriver.contents == old(toDriver.contents) + (if !known && ToKernel(q) then [IoctlFor(q)] else [])
      && toUsermode.contents == old(toUsermode.contents) + (if !known && ToUser(q) then [IoctlFor(q)] else [])
  {
    hide ToKernel, ToUser;
    flag := flagIn;
    var found := FindRegister(toDriver, q.registerUid);
    if found {
      flag := 1;
    }
    found := FindRegister(toUsermode, q.registerUid);
    if found {
      flag := 1;
    }
    if flag == 0 {
      Route(q, toDriver, toUsermode);
    } else {
      flag := 0;
    }
  }

  /** The routing loop of `breakout_sort_ioctls`. */
  method RouteRequests(internal: ListHead<Request>)
    returns (toDriver: ListHead<UsedIoctl>, toUsermode: ListHead<UsedIoctl>)
    requires internal.Valid()
    ensures fresh(toDriver) && fresh(toUsermode) && fresh(toDriver.Nodes()) && fresh(toUsermode.Nodes())
    ensures toDriver.Valid() && toUsermode.Valid() && toDriver != toUsermode && toDriver.Nodes() !! toUsermode.Nodes()
    ensures toDriver.contents == KernelReads(Kept(internal.contents, |internal.contents|))
    ensures toUsermode.contents == UserReads(Kept(internal.contents, |internal.contents|))
  {
    hide ToKernel, ToUser, FirstRoutable, Reads, ListHead.Valid;
    internal.WalkStart();
    ghost var reqs := internal.contents;
    toDriver := new ListHead();
    toUsermode := new ListHead();
    var flag := 0;
    var temp := internal.head;
    ghost var i := 0;
    while temp != null
      invariant 0 <= i <= |reqs| && flag == 0
      invariant internal.Valid() && internal.contents == reqs && temp == internal.NodeAt(i)
      invariant fresh(toDriver) && fresh(toUsermode) && fresh(toDriver.Nodes()) && fresh(toUsermode.Nodes())
      invariant toDriver.Valid() && toUsermode.Valid() && toDriver != toUsermode
      invariant toDriver.Nodes() !! toUsermode.Nodes()
      invariant toDriver.contents == KernelReads(Kept(reqs, i)) && toUsermode.contents == UserReads(Kept(reqs, i))
      decreases |reqs| - i
    {
      internal.WalkStep(i);
      RoutingStep(reqs, i);
      flag := RouteOne(temp.data, toDriver, toUsermode, flag);
      temp := temp.next;
      i := i + 1;
    }
  }

  /** Some read so far is of the register. */
  ghost predicate AlreadyRead(reqs: seq<Request>, n: nat, register: u32)
    requires n <= |reqs|
  {
    Reads(KernelReads(Kept(reqs, n)), register) || Reads(UserReads(Kept(reqs, n)), register)
  }

  /** What one more request adds to the reads. */
  lemma {:induction false} RoutingStep(reqs: seq<Request>, i: nat)
    requires i < |reqs|
    ensures KernelReads(Kept(reqs, i + 1)) == KernelReads(Kept(reqs, i))
          + (if !AlreadyRead(reqs, i, reqs[i].registerUid) && ToKernel(reqs[i]) then [IoctlFor(reqs[i])] else [])
    ensures UserReads(Kept(reqs, i + 1)) == UserReads(Kept(reqs, i))
          + (if !AlreadyRead(reqs, i, reqs[i].registerUid) && ToUser(reqs[i]) then [IoctlFor(reqs[i])] else [])
  {
    hide ToKernel, ToUser, Reads;
    RoutedSoFar(reqs, i, reqs[i].registerUid);
    assert (Kept(reqs, i) + [reqs[i]])[..|Kept(reqs, i)|] == Kept(reqs, i);
  }

  // ----- the exact routing specification -----

  /** `x` is the read of the first routable request for its register, and that request's effective
      level has kernel (user) mode. */
  ghost predicate BelongsToKernel(reqs: seq<Request>, n: nat, x: UsedIoctl)
    requires n <= |reqs|
  {
    exists i :: 0 <= i < n && FirstRoutable(reqs, i) && ToKernel(reqs[i]) && IoctlFor(reqs[i]) == x
  }

  ghost predicate BelongsToUser(reqs: seq<Request>, n: nat, x: UsedIoctl)
    requires n <= |reqs|
  {
    exists i :: 0 <= i < n && FirstRoutable(reqs, i) && ToUser(reqs[i]) && IoctlFor(reqs[i]) == x
  }

  lemma {:induction false} KernelReadsExact(reqs: seq<Request>, n: nat, x: UsedIoctl)
    requires n <= |reqs|
    ensures x in KernelReads(Kept(reqs, n)) <==> BelongsToKernel(reqs, n, x)
  {
    hide ToKernel, ToUser, FirstRoutable;
    if n > 0 {
      KernelReadsExact(reqs, n - 1, x);
      assert (Kept(reqs, n - 1) + [reqs[n - 1]])[..|Kept(reqs, n - 1)|] == Kept(reqs, n - 1);
    }
  }

  lemma {:induction false} UserReadsExact(reqs: seq<Request>, n: nat, x: UsedIoctl)
    requires n <= |reqs|
    ensures x in UserReads(Kept(reqs, n)) <==> BelongsToUser(reqs, n, x)
  {
    hide ToKernel, ToUser, FirstRoutable;
    if n > 0 {
      UserReadsExact(reqs, n - 1, x);
      assert (Kept(reqs, n - 1) + [reqs[n - 1]])[..|Kept(reqs, n - 1)|] == Kept(reqs, n - 1);
    }
  }

  lemma {:induction false} ReadsDistinct(reqs: seq<Request>, n: nat)
    requires n <= |reqs|
    ensures RegistersDistinct(KernelReads(Kept(reqs, n))) && RegistersDistinct(UserReads(Kept(reqs, n)))
  {
    hide ToKernel, ToUser;
    if n > 0 {
      ReadsDistinct(reqs, n - 1);
      RoutedSoFar(reqs, n - 1, reqs[n - 1].registerUid);
      assert (Kept(reqs, n - 1) + [reqs[n - 1]])[..|Kept(reqs, n - 1)|] == Kept(reqs, n - 1);
    }
  }

  /** Routing exactly: each list reads a register at most once; a read is on the kernel (user) list
      if and only if it is that of the first routable request for its register and the effective
      level of that request has kernel (user) mode; and every register that some request could
      route is read. */
  lemma RoutingExact(reqs: seq<Request>)
    ensures RegistersDistinct(KernelReads(Kept(reqs, |reqs|))) && RegistersDistinct(UserReads(Kept(reqs, |reqs|)))
    ensures forall x :: x in KernelReads(Kept(reqs, |reqs|)) <==> BelongsToKernel(reqs, |reqs|, x)
    ensures forall x :: x in UserReads(Kept(reqs, |reqs|)) <==> BelongsToUser(reqs, |reqs|, x)
    ensures forall i :: 0 <= i < |reqs| && Routable(reqs[i]) ==>
              AlreadyRead(reqs, |reqs|, reqs[i].registerUid)
  {
    hide ToKernel, ToUser, FirstRoutable, RegistersDistinct;
    ReadsDistinct(reqs, |reqs|);
    forall x
      ensures x in KernelReads(Kept(reqs, |reqs|)) <==> BelongsToKernel(reqs, |reqs|, x)
    {
      KernelReadsExact(reqs, |reqs|, x);
    }
    forall x
      ensures x in UserReads(Kept(reqs, |reqs|)) <==> BelongsToUser(reqs, |reqs|, x)
    {
      UserReadsExact(reqs, |reqs|, x);
    }
    forall i | 0 <= i < |reqs| && Routable(reqs[i])
      ensures AlreadyRead(reqs, |reqs|, reqs[i].registerUid)
    {
      RoutedSoFar(reqs, |reqs|, reqs[i].registerUid);
    }
  }
}
