/** The user-mode read engine: the same readers, with a signal instead of a trap hook. */
module UserEngine {
  import opened Bits
  import opened Parse
  import opened Support
  import opened Decode
  import opened FuncTable
  import opened JoinSpec

  /** What one user-mode read does: whether it raises SIGILL, and what it returns. Arbitrary. */
  datatype UserEvent = UserEvent(words: Words, faults: bool)

  /** A result record that is updated in place and reused. */
  class Record {
    var data: MsData

    constructor ()
      ensures data == ZERO_DATA
    {
      data := ZERO_DATA;
    }
  }

  // ----- what a read leaves -----

  function UserStatus(e: FuncEntry, ev: UserEvent): Status {
    if !Supported(e) then TableError else if ev.faults then IllegalInst else Success
  }

  ghost predicate HoldsUserReading(e: FuncEntry, aarch64: bool, ev: UserEvent, d: MsData) {
    && d.cpu == 0 && d.midr == 0
    && d.out64 == Stored64(e, aarch64, ev.words)
    && d.out1 == Stored1(e, aarch64, ev.words)
    && d.out2 == Stored2(e, aarch64, ev.words)
    && d.status == UserStatus(e, ev)
  }

  /** The result of one user-mode read. */
  ghost function UserResult(x: UsedIoctl, e: FuncEntry, aarch64: bool, ev: UserEvent): IoctlResult {
    IoctlResult(x.registerUid,
                Stored64(e, aarch64, ev.words), Stored1(e, aarch64, ev.words), Stored2(e, aarch64, ev.words),
                0, 0, NS_PRIVILEGE_LEVEL_0, UserStatus(e, ev))
  }

  /** The results of the first `n` reads: one for each register that has a reader. */
  ghost function UserResults(table: seq<FuncEntry>, aarch64: bool, ioctls: seq<UsedIoctl>, script: seq<UserEvent>,
      n: nat): seq<IoctlResult>
    requires n <= |ioctls| == |script|
  {
    if n == 0 then []
    else if HasReader(table, ioctls[n - 1].registerUid) then
      UserResults(table, aarch64, ioctls, script, n - 1)
      + [UserResult(ioctls[n - 1], EntryFor(table, ioctls[n - 1].registerUid), aarch64, script[n - 1])]
    else UserResults(table, aarch64, ioctls, script, n - 1)
  }

  // ----- the engine -----

  class UserSide {
    const table: seq<FuncEntry>
    const aarch64: bool
    /** `g_illsig`. */
    var illsig: nat

    /** `register_signal_handlers` clears the flag. */
    constructor (table: seq<FuncEntry>, aarch64: bool)
      ensures this.table == table && this.aarch64 == aarch64 && illsig == 0
    {
      this.table, this.aarch64 := table, aarch64;
      illsig := 0;
    }

    /** `ms_signal_handler` for SIGILL. */
    method SignalHandler()
      modifies this
      ensures illsig == 1
    {
      illsig := 1;
    }

    /** `try_command_*`: the read runs up to its fault, if it has one. */
    method TryCommand(ev: UserEvent) returns (words: Words)
      modifies this
      ensures words == ev.words
      ensures illsig == if ev.faults then 1 else old(illsig)
    {
      if ev.faults {
        SignalHandler();
      }
      words := ev.words;
    }

    /** `set_status_flag`: consumes the flag. */
    method SetStatusFlag(out: Record)
      modifies this, out
      ensures illsig == 0
      ensures out.data == old(out.data).(status := if old(illsig) >= 1 then IllegalInst else Success)
    {
      if illsig >= 1 {
        out.data := out.data.(status := IllegalInst);
        illsig := 0;
      } else {
        out.data := out.data.(status := Success);
      }
    }

    /** `call_func_ptr`. */
    method CallFuncPtr(index: nat, out: Record, ev: UserEvent) returns (result: int)
      requires illsig == 0
      modifies this, out
      ensures illsig == 0
      ensures result == if index < |table| then 0 else -1
      ensures result == 0 ==> HoldsUserReading(table[index], aarch64, ev, out.data)
    {
      out.data := out.data.(cpu := 0);
      out.data := out.data.(midr := 0);
      out.data := out.data.(out64 := 0);
      out.data := out.data.(out1 := 0);
      out.data := out.data.(out2 := 0);
      if index >= |table| {
        return -1;
      }
      var e := table[index];
      match e.prototype {
        case Out1 =>
          if e.dataSize == Bits32 {
            var w := TryCommand(ev);
            out.data := out.data.(out1 := w.val1);
            SetStatusFlag(out);
          } else if e.dataSize == Bits64 {
            var w := TryCommand(ev);
            out.data := out.data.(out64 := w.val64);
            SetStatusFlag(out);
          } else if e.dataSize == BitsArch {
            var w := TryCommand(ev);
            if aarch64 {
              out.data := out.data.(out64 := w.val64);
            } else {
              out.data := out.data.(out1 := w.val1);
            }
            SetStatusFlag(out);
          } else {
            out.data := out.data.(status := TableError);
          }
        case Out2 =>
          if e.dataSize == Bits32 {
            var w := TryCommand(ev);
            out.data := out.data.(out1 := w.val1);
            out.data := out.data.(out2 := w.val2);
            SetStatusFlag(out);
          } else if e.dataSize == BitsArch {
            var w := TryCommand(ev);
            if aarch64 {
              out.data := out.data.(out64 := w.val64);
            } else {
              out.data := out.data.(out1 := w.val1);
            }
            out.data := out.data.(out2 := w.val2);
            SetStatusFlag(out);
          } else {
            out.data := out.data.(status := TableError);
          }
        case UnknownPrototype =>
          out.data := out.data.(status := TableError);
      }
      return 0;
    }

    /** `usermode_results`. */
    method UsermodeResults(cmd: u32, out: Record, ev: UserEvent) returns (result: int)
      requires illsig == 0
      modifies this, out
      ensures illsig == 0
      ensures result == if HasReader(table, cmd) then 0 else -1
      ensures result == 0 ==> HoldsUserReading(EntryFor(table, cmd), aarch64, ev, out.data)
    {
      out.data := out.data.(status := NoResult);
      var found, index := FindFunctionIndex(table, cmd);
      if found != 0 {
        return -1;
      }
      var called := CallFuncPtr(index, out, ev);
      if called != 0 {
        return -1;
      }
      return 0;
    }
  }

  /** The body of the loop of `breakout_call_usermode`. */
  method ReadInUsermode(u: UserSide, x: UsedIoctl, local: Record, ev: UserEvent, out: ListHead<IoctlResult>)
    requires u.illsig == 0 && out.Valid()
    modifies u, local, out, out.Nodes()
    ensures u.illsig == 0 && out.Valid() && fresh(out.Nodes() - old(out.Nodes()))
    ensures out.contents == old(out.contents)
                          + if HasReader(u.table, x.registerUid)
                            then [UserResult(x, EntryFor(u.table, x.registerUid), u.aarch64, ev)] else []
  {
    hide EntryFor, HasReader, Stored64, Stored1, Stored2, ListHead.Valid;
    var result := u.UsermodeResults(x.registerUid, local, ev);
    if result == 0 {
      var d := local.data;
      out.Append(IoctlResult(x.registerUid, d.out64, d.out1, d.out2, 0, 0, NS_PRIVILEGE_LEVEL_0, d.status));
    }
  }

  /** `breakout_call_usermode`: one record, zeroed once, serves all reads; a register without a
      reader gives no result. */
  method BreakoutCallUsermode(u: UserSide, ioctls: ListHead<UsedIoctl>, script: seq<UserEvent>,
      out: ListHead<IoctlResult>)
    requires u.illsig == 0 && ioctls.Valid() && out.Valid() && |script| == |ioctls.contents|
    modifies u, out, out.Nodes()
    ensures u.illsig == 0
    ensures out.Valid() && fresh(out.Nodes() - old(out.Nodes()))
    ensures out.contents == old(out.contents)
                          + UserResults(u.table, u.aarch64, ioctls.contents, script, |ioctls.contents|)
  {
    hide EntryFor, HasReader, UserResult, ListHead.Valid;
    ioctls.WalkStart();
    ghost var todo := ioctls.contents;
    var local := new Record();
    var temp := ioctls.head;
    var n := 0;
    while temp != null
      invariant 0 <= n <= |todo| && ioctls.Valid() && ioctls.contents == todo && temp == ioctls.NodeAt(n)
      invariant u.illsig == 0
      invariant out.Valid() && fresh(out.Nodes() - old(out.Nodes()))
      invariant out.contents == old(out.contents) + UserResults(u.table, u.aarch64, todo, script, n)
      decreases |todo| - n
    {
      ioctls.WalkStep(n);
      ReadInUsermode(u, temp.data, local, script[n], out);
      temp := temp.next;
      n := n + 1;
    }
  }

  /** The reads, of the first `n`, whose registers have a reader: result `m` of a run is that of read
      `UserOrigins(..)[m]`. */
  ghost function UserOrigins(table: seq<FuncEntry>, ioctls: seq<UsedIoctl>, n: nat): (r: seq<nat>)
    requires n <= |ioctls|
    ensures forall m :: 0 <= m < |r| ==> r[m] < n && HasReader(table, ioctls[r[m]].registerUid)
  {
    if n == 0 then []
    else if HasReader(table, ioctls[n - 1].registerUid) then UserOrigins(table, ioctls, n - 1) + [n - 1]
    else UserOrigins(table, ioctls, n - 1)
  }

  lemma {:induction false} UserResultOrigins(table: seq<FuncEntry>, aarch64: bool, ioctls: seq<UsedIoctl>,
      script: seq<UserEvent>, n: nat)
    requires n <= |ioctls| == |script|
    ensures |UserResults(table, aarch64, ioctls, script, n)| == |UserOrigins(table, ioctls, n)|
    ensures forall m :: 0 <= m < |UserOrigins(table, ioctls, n)| ==>
              var k := UserOrigins(table, ioctls, n)[m];
              UserResults(table, aarch64, ioctls, script, n)[m]
              == UserResult(ioctls[k], EntryFor(table, ioctls[k].registerUid), aarch64, script[k])
  {
    hide EntryFor, HasReader, UserResult;
    if n > 0 {
      UserResultOrigins(table, aarch64, ioctls, script, n - 1);
    }
  }

  /** In every run, although one record and one flag serve all reads, result `m` reports a fault exactly
      when its own read faulted, success exactly when its own read ran a working reader without a
      fault, and then carries the value of this read, as far as the reader's words join to it. */
  lemma {:induction false} UserResultFaithful(table: seq<FuncEntry>, aarch64: bool, ioctls: seq<UsedIoctl>,
      script: seq<UserEvent>, m: nat)
    requires |ioctls| == |script| && m < |UserOrigins(table, ioctls, |ioctls|)|
    ensures |UserResults(table, aarch64, ioctls, script, |ioctls|)| == |UserOrigins(table, ioctls, |ioctls|)|
    ensures var k := UserOrigins(table, ioctls, |ioctls|)[m];
            var r := UserResults(table, aarch64, ioctls, script, |ioctls|)[m];
            var e := EntryFor(table, ioctls[k].registerUid);
            && r.registerUid == ioctls[k].registerUid
            && (r.status == IllegalInst <==> Supported(e) && script[k].faults)
            && (r.status == Success <==> Supported(e) && !script[k].faults)
            && (Supported(e) ==>
                  (RawValue(r) == ReadValue(e, aarch64, script[k].words) <==> WordsJoin(e, aarch64, script[k].words)))
  {
    hide ValueToLong, Stored64, Stored1, Stored2, EntryFor, HasReader, Supported, RawValue, ReadValue, WordsJoin;
    UserResultOrigins(table, aarch64, ioctls, script, |ioctls|);
    var k := UserOrigins(table, ioctls, |ioctls|)[m];
    var e := EntryFor(table, ioctls[k].registerUid);
    ValueIsRaw(UserResult(ioctls[k], e, aarch64, script[k]));
    if Supported(e) {
      TransportRoundTrip(e, aarch64, script[k].words);
    }
  }

  /** Every result of a run in the fields of its read: it names level 0, CPU 0 and no MIDR; its status is a
      table error for an entry whose shape is none of the five, and otherwise a fault if the read
      faulted and success if not; and its value is the word or the words read, shape by shape. */
  lemma {:induction false} UserResultInFields(table: seq<FuncEntry>, aarch64: bool, ioctls: seq<UsedIoctl>,
      script: seq<UserEvent>, m: nat, j: nat)
    requires |ioctls| == |script| && m < |UserOrigins(table, ioctls, |ioctls|)|
    requires FirstEntry(table, ioctls[UserOrigins(table, ioctls, |ioctls|)[m]].registerUid, j)
    ensures |UserResults(table, aarch64, ioctls, script, |ioctls|)| == |UserOrigins(table, ioctls, |ioctls|)|
    ensures var k := UserOrigins(table, ioctls, |ioctls|)[m];
            var r := UserResults(table, aarch64, ioctls, script, |ioctls|)[m];
            var e, w := table[j], script[k].words;
            var known := (e.prototype == Out1 && e.dataSize in {Bits32, Bits64, BitsArch})
                         || (e.prototype == Out2 && e.dataSize in {Bits32, BitsArch});
            && r.registerUid == ioctls[k].registerUid && r.epl == 1 && r.cpu == 0 && r.midr == 0
            && r.status == (if !known then TableError else if script[k].faults then IllegalInst else Success)
            && (e.prototype == Out1 && e.dataSize == Bits32 ==> RawValue(r) == w.val1)
            && (e.prototype == Out1 && e.dataSize == Bits64 ==> RawValue(r) == w.val64)
            && (e.prototype == Out1 && e.dataSize == BitsArch ==> RawValue(r) == if aarch64 then w.val64 else w.val1)
            && (e.prototype == Out2 && e.dataSize == Bits32 ==> RawValue(r) == w.val2 * 0x1_0000_0000 + w.val1)
            && (e.prototype == Out2 && e.dataSize == BitsArch && !aarch64 ==>
                  RawValue(r) == w.val2 * 0x1_0000_0000 + w.val1)
            && (e.prototype == Out2 && e.dataSize == BitsArch && aarch64 ==>
                  RawValue(r) == if w.val2 == 0 then w.val64 else w.val2 * 0x1_0000_0000)
  {
    hide ValueToLong, Stored64, Stored1, Stored2, EntryFor, HasReader, RawValue, UserResults, UserOrigins;
    UserResultOrigins(table, aarch64, ioctls, script, |ioctls|);
    var k := UserOrigins(table, ioctls, |ioctls|)[m];
    FirstEntryIsReader(table, ioctls[k].registerUid, j);
    ValueIsRaw(UserResult(ioctls[k], table[j], aarch64, script[k]));
    JoinedWordsByShape(table[j], aarch64, script[k].words);
  }

  /** Where each result of a run comes from: every result is that of a read of the run, and every
      read of a register with a reader has its result. */
  lemma {:induction false} UserResultsExact(table: seq<FuncEntry>, aarch64: bool, ioctls: seq<UsedIoctl>,
      script: seq<UserEvent>, n: nat, r: IoctlResult)
    requires n <= |ioctls| == |script|
    ensures r in UserResults(table, aarch64, ioctls, script, n)
       <==> exists k :: 0 <= k < n && HasReader(table, ioctls[k].registerUid)
                     && r == UserResult(ioctls[k], EntryFor(table, ioctls[k].registerUid), aarch64, script[k])
  {
    hide EntryFor, HasReader, UserResult;
    if n > 0 {
      UserResultsExact(table, aarch64, ioctls, script, n - 1, r);
    }
  }
}
