/** Handing results to the caller: the list becomes an array. */
module Results {
  import opened Bits
  import opened Parse
  import opened Support
  import opened Lookup
  import opened Tables
  import opened Join

  /** The bit positions shown for a bitfield, when it has a row. */
  datatype Stamp = NoStamp | Stamp(msb: u32, lsb: nat)

  /** One element of the array (`ms_bitfield_info`). */
  datatype FlatResult = FlatResult(
    arrayElements: nat, cpu: u32, epl: u32, uid: u32, status: Status, partNumber: Label, partNumberTable: Label,
    stamp: Stamp, bitfield: Label, functionalGroup: Label, registerName: Label, description: Label, value: nat)

  /** `get_partnumber_from_midr`; empty when unknown. */
  function PartNumberName(midr: u32): Label {
    var ppn := PrimaryPart(midr);
    if ppn == PPN_CORTEX_A7 then Label("cortex-a7")
    else if ppn == PPN_CORTEX_A9 then Label("cortex-a9")
    else if ppn == PPN_CORTEX_A15 then Label("cortex-a15")
    else if ppn == PPN_CORTEX_A53 then Label("cortex-a53")
    else if ppn == PPN_CORTEX_A57 then Label("cortex-a57")
    else Label("")
  }

  /** `get_decode_table`. */
  function DecodeTableName(uid: u32): Label {
    var part := MscodePart(uid);
    if part == ARCH_ARMV7A then Label("armv7a")
    else if part == ARCH_ARMV8A then Label("armv8a")
    else if part == IMPL_CORTEX_A7 then Label("cortex-a7")
    else if part == IMPL_CORTEX_A15 then Label("cortex-a15")
    else if part == IMPL_CORTEX_A53 then Label("cortex-a53")
    else if part == IMPL_CORTEX_A57 then Label("cortex-a57")
    else if part == GICC_V2 || part == GICD_V2 || part == GICH_V2 || part == GICV_V2 then Label("gicv2")
    else Label("unknown")
  }

  /** The stamp of a row, through the first table row with its uid. */
  ghost function StampOf(rows: seq<HeapRow>, p: Populated): Stamp {
    if p.bitfield == Label("Unparsed") || IndexOf(rows, p.uid) >= |rows| then NoStamp
    else
      var row := rows[IndexOf(rows, p.uid)];
      Stamp(ToUnsigned(row.mask - 1 + row.rightshift), row.rightshift)
  }

  ghost function Flattened(rows: seq<HeapRow>, p: Populated, size: nat): FlatResult {
    FlatResult(size, p.cpu, p.epl, p.uid, p.status, PartNumberName(p.midr), DecodeTableName(p.uid), StampOf(rows, p),
               p.bitfield, p.functionalGroup, p.registerName, p.description, p.value)
  }

  /** An element of the array in the fields of its list row: numbers and names as they are; the part named by
      the MIDR's primary part number and the table by the part of the uid; and for a parsed row the
      positions of the highest and lowest bit of its table row. */
  lemma {:induction false} FlattenedInFields(rows: seq<HeapRow>, p: Populated, size: nat)
    ensures var f := Flattened(rows, p, size);
            && f.arrayElements == size && f.cpu == p.cpu && f.epl == p.epl && f.uid == p.uid && f.status == p.status
            && f.value == p.value && f.bitfield == p.bitfield && f.functionalGroup == p.functionalGroup
            && f.registerName == p.registerName && f.description == p.description
    ensures var ppn, name := p.midr / 16 % 4096, Flattened(rows, p, size).partNumber.text;
            name == if ppn == 0xC07 then "cortex-a7" else if ppn == 0xC09 then "cortex-a9"
                    else if ppn == 0xC0F then "cortex-a15" else if ppn == 0xD03 then "cortex-a53"
                    else if ppn == 0xD07 then "cortex-a57" else ""
    ensures var part, name := MscodePart(p.uid), Flattened(rows, p, size).partNumberTable.text;
            name == if part == 0 then "armv7a" else if part == 1 then "armv8a" else if part == 2 then "cortex-a7"
                    else if part == 4 then "cortex-a15" else if part == 5 then "cortex-a53"
                    else if part == 6 then "cortex-a57" else if 8 <= part <= 11 then "gicv2" else "unknown"
    ensures forall c: nat :: c < |rows| && rows[c].uid == p.uid && UidsDistinct(rows) ==>
              Flattened(rows, p, size).stamp
              == if p.bitfield == Label("Unparsed") then NoStamp
                 else Stamp((rows[c].mask - 1 + rows[c].rightshift) % 0x1_0000_0000, rows[c].rightshift)
  {
    hide MscodePart, IndexOf, UidsDistinct, PrimaryPart;
    PrimaryPartNumber(p.midr);
    LookupInverts(rows);
  }

  /** `get_bitfieldstamp`. */
  method GetBitfieldStamp(rows: seq<HeapRow>, code: u32) returns (stamp: Stamp)
    ensures IndexOf(rows, code) >= |rows| ==> stamp == NoStamp
    ensures IndexOf(rows, code) < |rows| ==>
              stamp == Stamp(ToUnsigned(rows[IndexOf(rows, code)].mask - 1 + rows[IndexOf(rows, code)].rightshift),
                             rows[IndexOf(rows, code)].rightshift)
  {
    var found, index := GetIndex(rows, code);
    IndexFromIsFirst(rows, code, 0);
    if !found {
      return NoStamp;
    }
    var lsb := rows[index].rightshift;
    var msb := ToUnsigned(rows[index].mask - 1 + lsb);
    return Stamp(msb, lsb);
  }

  /** `flatten_results`: fails on an empty list; otherwise the array is the list, element for element
      and in order. The list is never shorter than its size says, so the error exit is never taken. */
  method FlattenResults(rows: seq<HeapRow>, list: ListHead<Populated>) returns (result: int, flat: array<FlatResult>)
    requires list.Valid()
    ensures fresh(flat)
    ensures result == if |list.contents| == 0 then -1 else 0
    ensures result == 0 ==> flat.Length == |list.contents|
    ensures result == 0 ==>
              forall i :: 0 <= i < |list.contents| ==> flat[i] == Flattened(rows, list.contents[i], |list.contents|)
  {
    hide PartNumberName, DecodeTableName, IndexOf;
    flat := new FlatResult[list.size];
    if list.size == 0 {
      return -1, flat;
    }
    var temp := list.head;
    var i := 0;
    while i < list.size
      invariant 0 <= i <= list.size == |list.contents| == flat.Length && list.Valid() && temp == list.NodeAt(i)
      invariant forall k :: 0 <= k < i ==> flat[k] == Flattened(rows, list.contents[k], |list.contents|)
    {
      if temp == null {
        assert false;
      }
      assert list.LinkedAt(i);
      var p := temp.data;
      var stamp := NoStamp;
      if p.bitfield != Label("Unparsed") {
        stamp := GetBitfieldStamp(rows, p.uid);
      }
      flat[i] := FlatResult(list.size, p.cpu, p.epl, p.uid, p.status, PartNumberName(p.midr),
                            DecodeTableName(p.uid), stamp, p.bitfield, p.functionalGroup, p.registerName,
                            p.description, p.value);
      temp := temp.next;
      i := i + 1;
    }
    return 0, flat;
  }
}
