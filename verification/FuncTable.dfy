/** The register readers: how each is called and where its value is put. */
module FuncTable {
  import opened Bits
  import opened Parse
  import opened Decode

  datatype Prototype = Out1 | Out2 | UnknownPrototype
  datatype DataSize = Bits32 | Bits64 | BitsArch | UnknownSize

  /** A row of the reader table (`func_table_entry`). */
  datatype FuncEntry = FuncEntry(code: u32, prototype: Prototype, dataSize: DataSize)

  /** The result slot of one CPU (`ms_data`). */
  datatype MsData = MsData(
    cpu: u32, midr: u32, in1: u32, in2: u32, out64: u64, out1: u32, out2: u32, status: Status)

  /** `memset` to zero; the status that this leaves is the one of success. */
  const ZERO_DATA := MsData(0, 0, 0, 0, 0, 0, 0, Success)

  /** What a reader hands back: a 64-bit word or one or two 32-bit words. */
  datatype Words = Words(val64: u64, val1: u32, val2: u32)

  /** The first entry from `i` on with the code, or the size of the table. */
  ghost function EntryFrom(table: seq<FuncEntry>, code: u32, i: nat): (r: nat)
    requires i <= |table|
    ensures i <= r <= |table|
    ensures forall j :: i <= j < r ==> table[j].code != code
    ensures r < |table| ==> table[r].code == code
    decreases |table| - i
  {
    if i == |table| || table[i].code == code then i else EntryFrom(table, code, i + 1)
  }

  /** `find_function_index`: the first entry with the code, or -1. */
  method FindFunctionIndex(table: seq<FuncEntry>, code: u32) returns (result: int, index: nat)
    ensures result == if EntryFrom(table, code, 0) < |table| then 0 else -1
    ensures result == 0 ==> index == EntryFrom(table, code, 0)
  {
    var local := -1;
    var i := 0;
    while i < |table|
      invariant 0 <= i <= |table| && local == -1
      invariant EntryFrom(table, code, 0) == EntryFrom(table, code, i)
    {
      if code == table[i].code {
        local := i;
        break;
      }
      i := i + 1;
    }
    if local == -1 {
      return -1, 0;
    }
    return 0, local;
  }

  /** The code has a reader, and the entry it is read through. */
  ghost predicate HasReader(table: seq<FuncEntry>, code: u32) {
    EntryFrom(table, code, 0) < |table|
  }

  ghost function EntryFor(table: seq<FuncEntry>, code: u32): FuncEntry
    requires HasReader(table, code)
  {
    table[EntryFrom(table, code, 0)]
  }

  /** Entry `j` is the first with the code. */
  ghost predicate FirstEntry(table: seq<FuncEntry>, code: u32, j: nat) {
    && j < |table| && table[j].code == code
    && forall k :: 0 <= k < j ==> table[k].code != code
  }

  lemma FirstEntryIsReader(table: seq<FuncEntry>, code: u32, j: nat)
    requires FirstEntry(table, code, j)
    ensures HasReader(table, code) && EntryFor(table, code) == table[j]
  {}

  // ----- shapes -----

  /** The prototype and size pairs that the dispatch knows; any other ends in a table error. */
  predicate Supported(e: FuncEntry) {
    || (e.prototype == Out1 && (e.dataSize == Bits32 || e.dataSize == Bits64 || e.dataSize == BitsArch))
    || (e.prototype == Out2 && (e.dataSize == Bits32 || e.dataSize == BitsArch))
  }

  /** The reader's value is 64 bits wide and stored as one word. */
  predicate Wide(e: FuncEntry, aarch64: bool) {
    e.dataSize == Bits64 || (e.dataSize == BitsArch && aarch64)
  }

  function Stored64(e: FuncEntry, aarch64: bool, w: Words): u64 {
    if Supported(e) && Wide(e, aarch64) then w.val64 else 0
  }

  function Stored1(e: FuncEntry, aarch64: bool, w: Words): u32 {
    if Supported(e) && !Wide(e, aarch64) then w.val1 else 0
  }

  function Stored2(e: FuncEntry, aarch64: bool, w: Words): u32 {
    if Supported(e) && e.prototype == Out2 then w.val2 else 0
  }

  /** The value that a reader's words join to after they have been stored in a zeroed slot. */
  ghost function JoinedWords(e: FuncEntry, aarch64: bool, w: Words): u64 {
    ValueToLong(Stored64(e, aarch64, w), Stored1(e, aarch64, w), Stored2(e, aarch64, w))
  }

  /** What the words join to, shape by shape: one output of 32 or 64 bits, or of the width of the
      architecture; two outputs that are the halves of a value; and on a 64-bit architecture a 64-bit
      output, unless something is in the second word. */
  lemma {:induction false} JoinedWordsByShape(e: FuncEntry, aarch64: bool, w: Words)
    ensures e.prototype == Out1 && e.dataSize == Bits32 ==> JoinedWords(e, aarch64, w) == w.val1
    ensures e.prototype == Out1 && e.dataSize == Bits64 ==> JoinedWords(e, aarch64, w) == w.val64
    ensures e.prototype == Out1 && e.dataSize == BitsArch ==>
              JoinedWords(e, aarch64, w) == if aarch64 then w.val64 else w.val1
    ensures e.prototype == Out2 && e.dataSize == Bits32 ==>
              JoinedWords(e, aarch64, w) == w.val2 * 0x1_0000_0000 + w.val1
    ensures e.prototype == Out2 && e.dataSize == BitsArch && !aarch64 ==>
              JoinedWords(e, aarch64, w) == w.val2 * 0x1_0000_0000 + w.val1
    ensures e.prototype == Out2 && e.dataSize == BitsArch && aarch64 ==>
              JoinedWords(e, aarch64, w) == if w.val2 == 0 then w.val64 else w.val2 * 0x1_0000_0000
  {
    hide Or, Shl64;
    ConcatWords(w.val1, w.val2);
    ConcatWords(w.val1, 0);
    ConcatWords(0, w.val2);
    ConcatWords(0, 0);
  }

  /** Exactly five shapes are known. */
  lemma SupportedShapes(e: FuncEntry)
    ensures Supported(e)
       <==> (e.prototype == Out1 && e.dataSize in {Bits32, Bits64, BitsArch})
            || (e.prototype == Out2 && e.dataSize in {Bits32, BitsArch})
  {}

  /** The register value that a reader's words stand for. */
  ghost function ReadValue(e: FuncEntry, aarch64: bool, w: Words): u64 {
    if Wide(e, aarch64) then w.val64
    else if e.prototype == Out2 then w.val2 * 0x1_0000_0000 + w.val1
    else w.val1
  }

  /** A 64-bit two-output reader leaves its second word 0, or happens to spell its value with it. */
  predicate WordsJoin(e: FuncEntry, aarch64: bool, w: Words) {
    Wide(e, aarch64) && e.prototype == Out2 ==> w.val2 == 0 || w.val64 == w.val2 * 0x1_0000_0000
  }

  /** Transport: storing the words in a zeroed slot and joining them again recovers the register
      value, a zero 64-bit value included, exactly when the words join. */
  lemma {:induction false} TransportRoundTrip(e: FuncEntry, aarch64: bool, w: Words)
    requires Supported(e)
    ensures JoinedWords(e, aarch64, w) == ReadValue(e, aarch64, w) <==> WordsJoin(e, aarch64, w)
  {
    hide ValueToLong;
    var a, b, c := Stored64(e, aarch64, w), Stored1(e, aarch64, w), Stored2(e, aarch64, w);
    LongWordRecovered(a, b, c);
    LongWordsJoined(b, c);
  }

  lemma {:induction false} LongWordsJoined(low: u32, high: u32)
    ensures ValueToLong(0, low, high) == high * 0x1_0000_0000 + low
  {
    hide Or, Shl64;
    ConcatWords(low, high);
  }
}
