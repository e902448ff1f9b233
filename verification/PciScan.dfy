/** Enumeration of a bus (kernel/pci.c), with nothing behind its bridges: the table of records and
    its lookups. */
module PciScan {
  import opened PciConfig
  import PciBar

  const MAX_DEVICES: nat := 32

  datatype Record = Record(
    addr: Address,
    vendorId: bv16, deviceId: bv16, command: bv16, status: bv16,
    revisionId: bv8, progIf: bv8, subclass: bv8, classCode: bv8,
    cacheLineSize: bv8, latencyTimer: bv8, headerType: bv8, bist: bv8,
    bar: seq<bv32>,
    cardbusCis: bv32, subsystemVendorId: bv16, subsystemId: bv16, expansionRom: bv32,
    capabilitiesPtr: bv8, interruptLine: bv8, interruptPin: bv8, minGrant: bv8, maxLatency: bv8)

  const NOWHERE := Address(0, 0, 0)

  const CLEARED := Record(NOWHERE, 0, 0, 0, 0, 0, 0, 0, 0, 0, 0, 0, 0, [0, 0, 0, 0, 0, 0], 0, 0, 0, 0, 0, 0, 0, 0, 0)

  // The record as bytes of configuration space

  function PairAt(space: Space, a: Address, reg: bv8): bv16 {
    Pair(ByteAt(space, a, reg), ByteAt(space, a, reg + 1))
  }

  function QuadAt(space: Space, a: Address, reg: bv8): bv32 {
    Quad(ByteAt(space, a, reg), ByteAt(space, a, reg + 1), ByteAt(space, a, reg + 2), ByteAt(space, a, reg + 3))
  }

  function BarsOf(space: Space, a: Address): seq<bv32> {
    [QuadAt(space, a, 0x10), QuadAt(space, a, 0x14), QuadAt(space, a, 0x18),
     QuadAt(space, a, 0x1C), QuadAt(space, a, 0x20), QuadAt(space, a, 0x24)]
  }

  function RecordOf(space: Space, a: Address): Record {
    Record(a,
           PairAt(space, a, 0x00), PairAt(space, a, 0x02), PairAt(space, a, 0x04), PairAt(space, a, 0x06),
           ByteAt(space, a, 0x08), ByteAt(space, a, 0x09), ByteAt(space, a, 0x0A), ByteAt(space, a, 0x0B),
           ByteAt(space, a, 0x0C), ByteAt(space, a, 0x0D), ByteAt(space, a, 0x0E), ByteAt(space, a, 0x0F),
           BarsOf(space, a),
           QuadAt(space, a, 0x28), PairAt(space, a, 0x2C), PairAt(space, a, 0x2E), QuadAt(space, a, 0x30),
           ByteAt(space, a, 0x34), ByteAt(space, a, 0x3C), ByteAt(space, a, 0x3D), ByteAt(space, a, 0x3E),
           ByteAt(space, a, 0x3F))
  }

  // The record as the 64-byte header of PCI Local Bus Specification 3.0, section 6.1

  /** Byte i of a word. */
  function Byte16(v: bv16, i: bv8): bv8
    requires i < 2
  {
    if i == 0 then (v & 0xFF) as bv8 else (v >> 8) as bv8
  }

  /** Byte i of a dword. */
  function Byte32(v: bv32, i: bv8): bv8
    requires i < 4
  {
    if i == 0 then (v & 0xFF) as bv8
    else if i == 1 then ((v >> 8) & 0xFF) as bv8
    else if i == 2 then ((v >> 16) & 0xFF) as bv8
    else (v >> 24) as bv8
  }

  /** Offsets of the type-0 header that hold a field. */
  predicate HasField(off: bv8) { off < 0x35 || 0x3C <= off < 0x40 }

  /** The byte the base address registers have at an offset. */
  function BarByte(bar: seq<bv32>, off: bv8): bv8
    requires |bar| == 6 && 0x10 <= off < 0x28
  {
    if off < 0x14 then Byte32(bar[0], off - 0x10)
    else if off < 0x18 then Byte32(bar[1], off - 0x14)
    else if off < 0x1C then Byte32(bar[2], off - 0x18)
    else if off < 0x20 then Byte32(bar[3], off - 0x1C)
    else if off < 0x24 then Byte32(bar[4], off - 0x20)
    else Byte32(bar[5], off - 0x24)
  }

  /** The byte a field has at its offset in the header. */
  function HeaderByte(r: Record, off: bv8): bv8
    requires |r.bar| == 6 && HasField(off)
  {
    if off < 0x02 then Byte16(r.vendorId, off)
    else if off < 0x04 then Byte16(r.deviceId, off - 0x02)
    else if off < 0x06 then Byte16(r.command, off - 0x04)
    else if off < 0x08 then Byte16(r.status, off - 0x06)
    else if off == 0x08 then r.revisionId
    else if off == 0x09 then r.progIf
    else if off == 0x0A then r.subclass
    else if off == 0x0B then r.classCode
    else if off == 0x0C then r.cacheLineSize
    else if off == 0x0D then r.latencyTimer
    else if off == 0x0E then r.headerType
    else if off == 0x0F then r.bist
    else if off < 0x28 then BarByte(r.bar, off)
    else if off < 0x2C then Byte32(r.cardbusCis, off - 0x28)
    else if off < 0x2E then Byte16(r.subsystemVendorId, off - 0x2C)
    else if off < 0x30 then Byte16(r.subsystemId, off - 0x2E)
    else if off < 0x34 then Byte32(r.expansionRom, off - 0x30)
    else if off == 0x34 then r.capabilitiesPtr
    else if off == 0x3C then r.interruptLine
    else if off == 0x3D then r.interruptPin
    else if off == 0x3E then r.minGrant
    else r.maxLatency
  }

  /** Every byte of the header is the byte of configuration space at that offset. */
  ghost predicate IsHeaderOf(r: Record, space: Space, a: Address) {
    && r.addr == a && |r.bar| == 6
    && forall off :: HasField(off) ==> HeaderByte(r, off) == ByteAt(space, a, off)
  }

  lemma PairBytes(low: bv8, high: bv8)
    ensures Byte16(Pair(low, high), 0) == low && Byte16(Pair(low, high), 1) == high
  {
  }

  lemma QuadBytes(b0: bv8, b1: bv8, b2: bv8, b3: bv8)
    ensures Byte32(Quad(b0, b1, b2, b3), 0) == b0 && Byte32(Quad(b0, b1, b2, b3), 1) == b1
    ensures Byte32(Quad(b0, b1, b2, b3), 2) == b2 && Byte32(Quad(b0, b1, b2, b3), 3) == b3
  {
  }

  lemma PairHeader(space: Space, a: Address, reg: bv8, off: bv8)
    requires off == reg || off == reg + 1
    ensures off - reg < 2 && Byte16(PairAt(space, a, reg), off - reg) == ByteAt(space, a, off)
  {
    hide ByteAt, Byte16, Pair;
    PairBytes(ByteAt(space, a, reg), ByteAt(space, a, reg + 1));
  }

  lemma QuadHeader(space: Space, a: Address, reg: bv8, off: bv8)
    requires off == reg || off == reg + 1 || off == reg + 2 || off == reg + 3
    ensures off - reg < 4 && Byte32(QuadAt(space, a, reg), off - reg) == ByteAt(space, a, off)
  {
    hide ByteAt, Byte32, Quad;
    QuadBytes(ByteAt(space, a, reg), ByteAt(space, a, reg + 1), ByteAt(space, a, reg + 2), ByteAt(space, a, reg + 3));
    OffsetBack(reg);
    if off == reg {
    } else if off == reg + 1 {
    } else if off == reg + 2 {
    } else {
    }
  }

  lemma OffsetBack(reg: bv8)
    ensures reg - reg == 0 && reg + 1 - reg == 1 && reg + 2 - reg == 2 && reg + 3 - reg == 3
  {
  }

  lemma InQuad(reg: bv8, off: bv8)
    requires reg <= off < reg + 4 && reg < 0x40
    ensures off == reg || off == reg + 1 || off == reg + 2 || off == reg + 3
  {
  }

  lemma BarHeader(space: Space, a: Address, off: bv8)
    requires 0x10 <= off < 0x28
    ensures BarByte(BarsOf(space, a), off) == ByteAt(space, a, off)
  {
    hide ByteAt, QuadAt, Byte32;
    var reg := BarRegOf(off);
    InQuad(reg, off);
    QuadHeader(space, a, reg, off);
  }

  /** The base address register an offset belongs to. */
  function BarRegOf(off: bv8): bv8 {
    if off < 0x14 then 0x10 else if off < 0x18 then 0x14 else if off < 0x1C then 0x18
    else if off < 0x20 then 0x1C else if off < 0x24 then 0x20 else 0x24
  }

  /** Register i of a record is what sizing register i of that function probes and restores. */
  lemma RecordInStep(space: Space, a: Address, i: nat)
    requires i < 6 && At(a, PciBar.BarReg(i)) in space
    ensures |RecordOf(space, a).bar| == 6
    ensures RecordOf(space, a).bar[i] == space[At(a, PciBar.BarReg(i))]
  {
    BarRegisters(space, a, i);
    QuadIsDword(space, a, PciBar.BarReg(i));
    hide BarsOf, QuadAt, PairAt, ByteAt;
  }

  lemma BarRegisters(space: Space, a: Address, i: nat)
    requires i < 6
    ensures BarsOf(space, a)[i] == QuadAt(space, a, PciBar.BarReg(i)) && PciBar.BarReg(i) & OFFSET_MASK == 0
    ensures RecordOf(space, a).bar == BarsOf(space, a)
  {
    hide QuadAt, PairAt, ByteAt;
  }

  lemma FieldHeader(space: Space, a: Address, off: bv8)
    requires HasField(off)
    ensures HeaderByte(RecordOf(space, a), off) == ByteAt(space, a, off)
  {
    hide ByteAt, BarsOf, PairAt, QuadAt, Byte16, Byte32, BarByte;
    if off < 0x02 {
      PairHeader(space, a, 0x00, off);
    } else if off < 0x04 {
      PairHeader(space, a, 0x02, off);
    } else if off < 0x06 {
      PairHeader(space, a, 0x04, off);
    } else if off < 0x08 {
      PairHeader(space, a, 0x06, off);
    } else if 0x10 <= off < 0x28 {
      BarHeader(space, a, off);
    } else if 0x28 <= off < 0x2C {
      InQuad(0x28, off);
      QuadHeader(space, a, 0x28, off);
    } else if 0x2C <= off < 0x2E {
      PairHeader(space, a, 0x2C, off);
    } else if 0x2E <= off < 0x30 {
      PairHeader(space, a, 0x2E, off);
    } else if 0x30 <= off < 0x34 {
      InQuad(0x30, off);
      QuadHeader(space, a, 0x30, off);
    }
  }

  /** The record of a function is its header. */
  lemma RecordIsHeader(space: Space, a: Address)
    ensures IsHeaderOf(RecordOf(space, a), space, a)
  {
    RecordAddress(space, a);
    assert |RecordOf(space, a).bar| == 6;
    hide RecordOf, HeaderByte, ByteAt;
    forall off | HasField(off) ensures HeaderByte(RecordOf(space, a), off) == ByteAt(space, a, off) {
      FieldHeader(space, a, off);
    }
  }

  lemma PairIsWord(space: Space, a: Address, reg: bv8)
    requires reg & OFFSET_MASK != 3
    ensures Word16(Dword(space, a, reg), reg) == PairAt(space, a, reg)
  {
    Read16Exact(space, a, reg);
  }

  lemma AlignedOffsets(reg: bv8)
    requires reg & OFFSET_MASK == 0
    ensures (reg + 1) & REGISTER_MASK == reg & REGISTER_MASK && (reg + 1) & OFFSET_MASK == 1
    ensures (reg + 2) & REGISTER_MASK == reg & REGISTER_MASK && (reg + 2) & OFFSET_MASK == 2
    ensures (reg + 3) & REGISTER_MASK == reg & REGISTER_MASK && (reg + 3) & OFFSET_MASK == 3
  {
  }

  lemma ByteInOffset(w: bv32, r: bv8, s: bv8)
    requires r & OFFSET_MASK == s & OFFSET_MASK
    ensures ByteIn(w, r) == ByteIn(w, s)
  {
  }

  lemma QuadIsDword(space: Space, a: Address, reg: bv8)
    requires reg & OFFSET_MASK == 0
    ensures Dword(space, a, reg) == QuadAt(space, a, reg)
  {
    AlignedOffsets(reg);
    SameDword(space, a, reg, reg + 1);
    SameDword(space, a, reg, reg + 2);
    SameDword(space, a, reg, reg + 3);
    var w := Dword(space, a, reg);
    DwordBytes(w);
    ByteInOffset(w, reg, 0);
    ByteInOffset(w, reg + 1, 1);
    ByteInOffset(w, reg + 2, 2);
    ByteInOffset(w, reg + 3, 3);
  }

  // Which functions are recorded

  function Slot(bus: bv8, d: nat, f: nat): Address
    requires d < 32 && f < 8
  {
    Address(bus, d as bv8, f as bv8)
  }

  predicate Exists(space: Space, a: Address) {
    Dword(space, a, 0) != ABSENT && Dword(space, a, 0) != 0
  }

  predicate MultiFunction(space: Space, a: Address) {
    ByteAt(space, a, 0x0E) & 0x80 != 0
  }

  /** A PCI-to-PCI bridge, by class and subclass. */
  predicate IsBridge(space: Space, a: Address) {
    ByteAt(space, a, 0x0B) == 6 && ByteAt(space, a, 0x0A) == 4
  }

  /** A function is enumerated when it is there and, beyond function 0, its device does not have
      a single-function function 0. */
  predicate Enumerated(space: Space, bus: bv8, d: nat, f: nat)
    requires d < 32 && f < 8
  {
    && Exists(space, Slot(bus, d, f))
    && (f == 0 || !Exists(space, Slot(bus, d, 0)) || MultiFunction(space, Slot(bus, d, 0)))
  }

  function SlotAt(bus: bv8, n: nat): Address
    requires n < 256
  {
    Slot(bus, n / 8, n % 8)
  }

  /** For each of the 256 slots in (device, function) order, whether it is enumerated. */
  function Wanted(space: Space, bus: bv8): (w: seq<bool>)
    ensures |w| == 256
    ensures forall n :: 0 <= n < 256 ==> w[n] == Enumerated(space, bus, n / 8, n % 8)
  {
    seq(256, n requires 0 <= n < 256 => Enumerated(space, bus, n / 8, n % 8))
  }

  /** The positions below n that are wanted, in order. */
  function Chosen(w: seq<bool>, n: nat): (s: seq<nat>)
    requires n <= |w|
    ensures |s| <= n && forall i :: 0 <= i < |s| ==> s[i] < n
  {
    if n == 0 then [] else Chosen(w, n - 1) + if w[n - 1] then [n - 1] else []
  }

  /** Strictly increasing, hence without duplicates, and exactly the wanted ones. */
  lemma {:induction false} ChosenExactly(w: seq<bool>, n: nat)
    requires n <= |w|
    ensures forall i, j :: 0 <= i < j < |Chosen(w, n)| ==> Chosen(w, n)[i] < Chosen(w, n)[j]
    ensures forall k :: 0 <= k < n ==> (k in Chosen(w, n) <==> w[k])
  {
    if n > 0 { ChosenExactly(w, n - 1); }
  }

  lemma {:induction false} ChosenGrows(w: seq<bool>, m: nat, n: nat)
    requires m <= n <= |w|
    ensures Chosen(w, m) <= Chosen(w, n)
    ensures (forall k :: m <= k < n ==> !w[k]) ==> Chosen(w, m) == Chosen(w, n)
    decreases n - m
  {
    if m < n { ChosenGrows(w, m, n - 1); }
  }

  lemma ByteInjective(x: nat, y: nat)
    requires x < 32 && y < 32 && (x as bv8) == (y as bv8)
    ensures x == y
  {
    ByteAndBack(x);
    ByteAndBack(y);
  }

  lemma ByteAndBack(x: nat)
    requires x < 32
    ensures (x as bv8) as nat == x
  {
  }

  lemma SlotInjective(bus: bv8, m: nat, n: nat)
    requires m < 256 && n < 256 && SlotAt(bus, m) == SlotAt(bus, n)
    ensures m == n
  {
    ByteInjective(m / 8, n / 8);
    ByteInjective(m % 8, n % 8);
  }

  function Records(space: Space, bus: bv8, s: seq<nat>): (r: seq<Record>)
    requires forall i :: 0 <= i < |s| ==> s[i] < 256
    ensures |r| == |s|
    ensures forall i :: 0 <= i < |s| ==> r[i] == RecordOf(space, SlotAt(bus, s[i]))
  {
    seq(|s|, i requires 0 <= i < |s| => RecordOf(space, SlotAt(bus, s[i])))
  }

  function Take<T>(s: seq<T>, n: nat): seq<T> { if |s| <= n then s else s[..n] }

  /** The table the scan is meant to build. */
  function Table(space: Space, bus: bv8): seq<Record> {
    Records(space, bus, Take(Chosen(Wanted(space, bus), 256), MAX_DEVICES))
  }

  /** It holds one record for each enumerated function up to the 32nd, no two alike in address,
      in increasing (device, function) order. */
  lemma TableExactly(space: Space, bus: bv8)
    ensures var chosen := Chosen(Wanted(space, bus), 256);
            var t := Table(space, bus);
            && |t| == (if |chosen| <= MAX_DEVICES then |chosen| else MAX_DEVICES)
            && (forall i :: 0 <= i < |t| ==> t[i] == RecordOf(space, SlotAt(bus, chosen[i])))
            && (forall i, j :: 0 <= i < j < |t| ==> chosen[i] < chosen[j] && t[i].addr != t[j].addr)
            && (forall n :: 0 <= n < 256 ==> (n in chosen <==> Enumerated(space, bus, n / 8, n % 8)))
  {
    hide RecordOf, SlotAt, Enumerated;
    var w := Wanted(space, bus);
    ChosenExactly(w, 256);
    var chosen := Chosen(w, 256);
    forall i | 0 <= i < |Table(space, bus)| ensures Table(space, bus)[i].addr == SlotAt(bus, chosen[i]) {
      RecordAddress(space, SlotAt(bus, chosen[i]));
    }
    forall i, j | 0 <= i < j < |Table(space, bus)|
      ensures chosen[i] < chosen[j] && Table(space, bus)[i].addr != Table(space, bus)[j].addr
    {
      if SlotAt(bus, chosen[i]) == SlotAt(bus, chosen[j]) { SlotInjective(bus, chosen[i], chosen[j]); }
    }
  }

  /** Every entry is the header of the function at its address. */
  lemma TableHeaders(space: Space, bus: bv8, i: nat)
    requires i < |Table(space, bus)|
    ensures IsHeaderOf(Table(space, bus)[i], space, Table(space, bus)[i].addr)
  {
    hide RecordOf, SlotAt, Enumerated, IsHeaderOf;
    var chosen := Take(Chosen(Wanted(space, bus), 256), MAX_DEVICES);
    RecordsAt(space, bus, chosen, i);
    RecordIsHeader(space, SlotAt(bus, chosen[i]));
  }

  /** Slot n is enumerated and fewer than 32 enumerated slots come before it. */
  ghost predicate Recorded(space: Space, bus: bv8, n: nat)
    requires n < 256
  {
    Enumerated(space, bus, n / 8, n % 8) && |Chosen(Wanted(space, bus), n)| < MAX_DEVICES
  }

  /** A wanted position is chosen at the index that counts the wanted ones before it. */
  lemma ChosenIndex(w: seq<bool>, n: nat)
    requires |w| == 256 && n < 256 && w[n]
    ensures |Chosen(w, n)| < |Chosen(w, 256)| && Chosen(w, 256)[|Chosen(w, n)|] == n
  {
    ChosenGrows(w, n + 1, 256);
    assert Chosen(w, n + 1)[|Chosen(w, n)|] == n;
  }

  /** The entry of the table at the index that belongs to slot n. */
  lemma TableHas(space: Space, bus: bv8, n: nat)
    requires n < 256 && Recorded(space, bus, n)
    ensures var i, t := |Chosen(Wanted(space, bus), n)|, Table(space, bus);
            i < |t| && t[i] == RecordOf(space, SlotAt(bus, n)) && t[i].addr == SlotAt(bus, n)
  {
    hide Enumerated, SlotAt, RecordOf;
    RecordAddress(space, SlotAt(bus, n));
    var w := Wanted(space, bus);
    assert w[n];
    ChosenIndex(w, n);
    RecordsAt(space, bus, Take(Chosen(w, 256), MAX_DEVICES), |Chosen(w, n)|);
  }

  lemma RecordsAt(space: Space, bus: bv8, s: seq<nat>, i: nat)
    requires (forall i :: 0 <= i < |s| ==> s[i] < 256) && i < |s|
    ensures Records(space, bus, s)[i] == RecordOf(space, SlotAt(bus, s[i]))
    ensures Records(space, bus, s)[i].addr == SlotAt(bus, s[i])
  {
    RecordAddress(space, SlotAt(bus, s[i]));
  }

  /** Any entry with the address of slot n is its record, and n is recorded. */
  lemma TableOnly(space: Space, bus: bv8, n: nat, i: nat)
    requires n < 256 && i < |Table(space, bus)| && Table(space, bus)[i].addr == SlotAt(bus, n)
    ensures Table(space, bus)[i] == RecordOf(space, SlotAt(bus, n)) && Recorded(space, bus, n)
  {
    var w := Wanted(space, bus);
    var chosen := Chosen(w, 256);
    hide RecordOf, SlotAt;
    RecordsAt(space, bus, Take(chosen, MAX_DEVICES), i);
    SlotInjective(bus, chosen[i], n);
    ChosenExactly(w, 256);
    assert n in chosen && w[n] == Enumerated(space, bus, n / 8, n % 8);
    hide Enumerated;
    ChosenIndex(w, n);
    var k := |Chosen(w, n)|;
    assert k == i by {
      assert chosen[k] == chosen[i];
    }
  }

  /** So a search of the table by address finds something exactly when the function is recorded,
      and then its own record. */
  lemma SearchMeaning(space: Space, bus: bv8, n: nat)
    requires n < 256
    ensures (exists i :: 0 <= i < |Table(space, bus)| && Table(space, bus)[i].addr == SlotAt(bus, n))
            <==> Recorded(space, bus, n)
    ensures forall i :: 0 <= i < |Table(space, bus)| && Table(space, bus)[i].addr == SlotAt(bus, n) ==>
              Table(space, bus)[i] == RecordOf(space, SlotAt(bus, n))
  {
    hide Table, RecordOf, Recorded, SlotAt;
    if Recorded(space, bus, n) { TableHas(space, bus, n); }
    forall i | 0 <= i < |Table(space, bus)| && Table(space, bus)[i].addr == SlotAt(bus, n)
      ensures Table(space, bus)[i] == RecordOf(space, SlotAt(bus, n)) && Recorded(space, bus, n)
    {
      TableOnly(space, bus, n, i);
    }
  }

  lemma RecordClass(space: Space, a: Address)
    ensures var r := RecordOf(space, a);
            && (r.headerType & 0x80 != 0 <==> MultiFunction(space, a))
            && (r.classCode == 6 && r.subclass == 4 <==> IsBridge(space, a))
  {
    hide ByteAt, PairAt, QuadAt, BarsOf;
  }

  lemma RecordAddress(space: Space, a: Address)
    ensures RecordOf(space, a).addr == a
  {
  }

  /** The bus a bridge leads to. */
  function Secondary(space: Space, a: Address): bv8 { ByteAt(space, a, 0x19) }

  ghost predicate EmptyBus(space: Space, bus: bv8) {
    forall n :: 0 <= n < 256 ==> !Exists(space, SlotAt(bus, n))
  }

  /** Nothing is behind any bridge on this bus. */
  ghost predicate QuietBridges(space: Space, bus: bv8) {
    forall n :: 0 <= n < 256 && Wanted(space, bus)[n] && IsBridge(space, SlotAt(bus, n)) ==>
      EmptyBus(space, Secondary(space, SlotAt(bus, n)))
  }

  /** A lookup by address: the first entry that has it, or -1 for none. */
  ghost predicate FirstAt(i: int, t: seq<Record>, a: Address) {
    if i == -1 then forall j :: 0 <= j < |t| ==> t[j].addr != a
    else 0 <= i < |t| && t[i].addr == a && forall j :: 0 <= j < i ==> t[j].addr != a
  }

  predicate HasIds(r: Record, vendorId: bv16, deviceId: bv16) {
    r.vendorId == vendorId && r.deviceId == deviceId
  }

  predicate OfClass(r: Record, classCode: bv8, subclass: bv8, progIf: bv8) {
    r.classCode == classCode && r.subclass == subclass && (progIf == 0xFF || r.progIf == progIf)
  }

  ghost predicate FirstWithIds(i: int, t: seq<Record>, vendorId: bv16, deviceId: bv16) {
    if i == -1 then forall j :: 0 <= j < |t| ==> !HasIds(t[j], vendorId, deviceId)
    else 0 <= i < |t| && HasIds(t[i], vendorId, deviceId)
         && forall j :: 0 <= j < i ==> !HasIds(t[j], vendorId, deviceId)
  }

  ghost predicate FirstOfClass(i: int, t: seq<Record>, classCode: bv8, subclass: bv8, progIf: bv8) {
    if i == -1 then forall j :: 0 <= j < |t| ==> !OfClass(t[j], classCode, subclass, progIf)
    else 0 <= i < |t| && OfClass(t[i], classCode, subclass, progIf)
         && forall j :: 0 <= j < i ==> !OfClass(t[j], classCode, subclass, progIf)
  }

  /** The first four bytes of a function, little-endian: vendor, then device. */
  predicate IdBytes(space: Space, a: Address, vendorId: bv16, deviceId: bv16) {
    && ByteAt(space, a, 0) == (vendorId & 0xFF) as bv8 && ByteAt(space, a, 1) == (vendorId >> 8) as bv8
    && ByteAt(space, a, 2) == (deviceId & 0xFF) as bv8 && ByteAt(space, a, 3) == (deviceId >> 8) as bv8
  }

  /** The class code in its bytes 0x0B, 0x0A and 0x09, 0xFF standing for any interface. */
  predicate ClassBytes(space: Space, a: Address, classCode: bv8, subclass: bv8, progIf: bv8) {
    && ByteAt(space, a, 0x0B) == classCode && ByteAt(space, a, 0x0A) == subclass
    && (progIf == 0xFF || ByteAt(space, a, 0x09) == progIf)
  }

  lemma WordOfBytes(v: bv16, w: bv16)
    ensures v == w <==> (v & 0xFF) as bv8 == (w & 0xFF) as bv8 && (v >> 8) as bv8 == (w >> 8) as bv8
  {
  }

  lemma HeaderMatches(r: Record, space: Space, a: Address, vendorId: bv16, deviceId: bv16,
                      classCode: bv8, subclass: bv8, progIf: bv8)
    requires IsHeaderOf(r, space, a)
    ensures HasIds(r, vendorId, deviceId) <==> IdBytes(space, a, vendorId, deviceId)
    ensures OfClass(r, classCode, subclass, progIf) <==> ClassBytes(space, a, classCode, subclass, progIf)
  {
    WordOfBytes(r.vendorId, vendorId);
    WordOfBytes(r.deviceId, deviceId);
    HeaderIds(r, space, a);
    HeaderClass(r, space, a);
    hide ByteAt, IsHeaderOf, HeaderByte;
  }

  lemma HeaderIds(r: Record, space: Space, a: Address)
    requires IsHeaderOf(r, space, a)
    ensures (r.vendorId & 0xFF) as bv8 == ByteAt(space, a, 0) && (r.vendorId >> 8) as bv8 == ByteAt(space, a, 1)
    ensures (r.deviceId & 0xFF) as bv8 == ByteAt(space, a, 2) && (r.deviceId >> 8) as bv8 == ByteAt(space, a, 3)
  {
    hide ByteAt;
    assert HeaderByte(r, 0) == ByteAt(space, a, 0);
    assert HeaderByte(r, 1) == ByteAt(space, a, 1);
    assert HeaderByte(r, 2) == ByteAt(space, a, 2);
    assert HeaderByte(r, 3) == ByteAt(space, a, 3);
  }

  lemma HeaderClass(r: Record, space: Space, a: Address)
    requires IsHeaderOf(r, space, a)
    ensures r.progIf == ByteAt(space, a, 0x09) && r.subclass == ByteAt(space, a, 0x0A)
    ensures r.classCode == ByteAt(space, a, 0x0B)
  {
    hide ByteAt;
    assert HeaderByte(r, 0x09) == ByteAt(space, a, 0x09);
    assert HeaderByte(r, 0x0A) == ByteAt(space, a, 0x0A);
    assert HeaderByte(r, 0x0B) == ByteAt(space, a, 0x0B);
  }

  /** After a scan from an empty table the lookups by ids and by class find something if and only if a
      recorded function has those bytes, and then an entry whose function has them. */
  lemma FindMeaning(space: Space, bus: bv8, i: int, vendorId: bv16, deviceId: bv16)
    requires FirstWithIds(i, Table(space, bus), vendorId, deviceId)
    ensures i != -1 <==>
            exists n :: 0 <= n < 256 && Recorded(space, bus, n) && IdBytes(space, SlotAt(bus, n), vendorId, deviceId)
    ensures i != -1 ==> IdBytes(space, Table(space, bus)[i].addr, vendorId, deviceId)
  {
    hide RecordOf, SlotAt, Enumerated, HasIds, IdBytes, IsHeaderOf, ByteAt;
    if i != -1 {
      var n := SlotOfEntry(space, bus, i);
      TableHeaders(space, bus, i);
      HeaderMatches(Table(space, bus)[i], space, SlotAt(bus, n), vendorId, deviceId, 0, 0, 0);
    } else {
      forall n | 0 <= n < 256 && Recorded(space, bus, n) ensures !IdBytes(space, SlotAt(bus, n), vendorId, deviceId) {
        TableHas(space, bus, n);
        RecordIsHeader(space, SlotAt(bus, n));
        HeaderMatches(RecordOf(space, SlotAt(bus, n)), space, SlotAt(bus, n), vendorId, deviceId, 0, 0, 0);
      }
    }
  }

  lemma FindClassMeaning(space: Space, bus: bv8, i: int, classCode: bv8, subclass: bv8, progIf: bv8)
    requires FirstOfClass(i, Table(space, bus), classCode, subclass, progIf)
    ensures i != -1 <==>
            exists n :: 0 <= n < 256 && Recorded(space, bus, n)
                        && ClassBytes(space, SlotAt(bus, n), classCode, subclass, progIf)
    ensures i != -1 ==> ClassBytes(space, Table(space, bus)[i].addr, classCode, subclass, progIf)
  {
    hide RecordOf, SlotAt, Enumerated, OfClass, ClassBytes, IsHeaderOf, ByteAt;
    if i != -1 {
      var n := SlotOfEntry(space, bus, i);
      TableHeaders(space, bus, i);
      HeaderMatches(Table(space, bus)[i], space, SlotAt(bus, n), 0, 0, classCode, subclass, progIf);
    } else {
      forall n | 0 <= n < 256 && Recorded(space, bus, n)
        ensures !ClassBytes(space, SlotAt(bus, n), classCode, subclass, progIf)
      {
        TableHas(space, bus, n);
        RecordIsHeader(space, SlotAt(bus, n));
        HeaderMatches(RecordOf(space, SlotAt(bus, n)), space, SlotAt(bus, n), 0, 0, classCode, subclass, progIf);
      }
    }
  }

  /** The slot an entry of the table came from. */
  lemma SlotOfEntry(space: Space, bus: bv8, i: nat) returns (n: nat)
    requires i < |Table(space, bus)|
    ensures n < 256 && Recorded(space, bus, n) && Table(space, bus)[i].addr == SlotAt(bus, n)
  {
    hide RecordOf, SlotAt, Enumerated;
    var chosen := Take(Chosen(Wanted(space, bus), 256), MAX_DEVICES);
    n := chosen[i];
    RecordsAt(space, bus, chosen, i);
    TableOnly(space, bus, n, i);
  }

  /** A function is there unless its first four bytes are all ones or all zeros. */
  lemma ExistsBytes(space: Space, a: Address)
    ensures Exists(space, a) <==> !IdBytes(space, a, 0xFFFF, 0xFFFF) && !IdBytes(space, a, 0, 0)
  {
    QuadIsDword(space, a, 0);
    hide ByteAt, Dword;
    FourBytes(ByteAt(space, a, 0), ByteAt(space, a, 1), ByteAt(space, a, 2), ByteAt(space, a, 3));
  }

  lemma FourBytes(b0: bv8, b1: bv8, b2: bv8, b3: bv8)
    ensures Quad(b0, b1, b2, b3) == ABSENT <==> b0 == 0xFF && b1 == 0xFF && b2 == 0xFF && b3 == 0xFF
    ensures Quad(b0, b1, b2, b3) == 0 <==> b0 == 0 && b1 == 0 && b2 == 0 && b3 == 0
  {
  }

  /** After a scan from an empty table a lookup finds, for any address whatever, exactly the
      functions recorded, and gives the record of that function. */
  lemma LookupMeaning(space: Space, bus: bv8, a: Address, i: int)
    requires FirstAt(i, Table(space, bus), a)
    ensures i != -1 <==> exists n :: 0 <= n < 256 && SlotAt(bus, n) == a && Recorded(space, bus, n)
    ensures i != -1 ==> Table(space, bus)[i] == RecordOf(space, a)
  {
    hide RecordOf, SlotAt, Enumerated;
    if i != -1 {
      var chosen := Chosen(Wanted(space, bus), 256);
      RecordsAt(space, bus, Take(chosen, MAX_DEVICES), i);
      assert SlotAt(bus, chosen[i]) == a;
      TableOnly(space, bus, chosen[i], i);
    } else {
      hide Table, Recorded;
      forall n | 0 <= n < 256 && SlotAt(bus, n) == a ensures !Recorded(space, bus, n) {
        if Recorded(space, bus, n) { TableHas(space, bus, n); }
      }
    }
  }

  // The table

  /** A table of `count` records in its array: the first `start` of what was there, then the new
      ones, and the entries not yet reached as they were. */
  ghost predicate Holds(d: seq<Record>, count: nat, was: seq<Record>, start: nat, new_: seq<Record>) {
    && |d| == |was| == MAX_DEVICES && start <= count <= MAX_DEVICES
    && d[..count] == was[..start] + new_ && d[count..] == was[count..]
  }

  /** As many of the records as there is room for. */
  function Room(all: seq<Record>, start: nat): seq<Record>
    requires start <= MAX_DEVICES
  {
    Take(all, MAX_DEVICES - start)
  }

  lemma HoldsNothing(was: seq<Record>, start: nat)
    requires start <= |was| == MAX_DEVICES
    ensures Holds(was, start, was, start, [])
  {
  }

  lemma AllFit(d: seq<Record>, count: nat, was: seq<Record>, start: nat, new_: seq<Record>)
    requires Holds(d, count, was, start, new_)
    ensures new_ == Room(new_, start)
  {
    assert |d[..count]| == start + |new_|;
  }

  lemma HoldsOneMore(d: seq<Record>, count: nat, was: seq<Record>, start: nat, new_: seq<Record>, r: Record)
    requires Holds(d, count, was, start, new_) && count < MAX_DEVICES
    ensures Holds(d[count := r], count + 1, was, start, new_ + [r])
  {
    var e := d[count := r];
    assert e[..count + 1] == d[..count] + [r];
    assert e[count + 1..] == d[count..][1..] == was[count..][1..];
  }

  class Enumerator {
    const port: ConfigPort
    const devices: array<Record>
    var count: nat

    constructor (p: ConfigPort)
      ensures port == p && fresh(devices) && Shape()
    {
      port := p;
      devices := new Record[MAX_DEVICES](_ => CLEARED);
      count := 0;
    }

    ghost predicate Shape()
      reads this
    {
      devices.Length == MAX_DEVICES && count <= MAX_DEVICES
    }

    method DeviceExists(a: Address) returns (r: bool)
      modifies port`address
      ensures r == Exists(port.space, a)
    {
      var id := port.Read(a, 0);
      r := id != ABSENT && id != 0;
    }

    method ReadPair(a: Address, reg: bv8) returns (v: bv16)
      requires reg & OFFSET_MASK != 3
      modifies port`address
      ensures v == PairAt(port.space, a, reg)
    {
      v := port.Read16(a, reg);
      PairIsWord(port.space, a, reg);
    }

    method ReadQuad(a: Address, reg: bv8) returns (v: bv32)
      requires reg & OFFSET_MASK == 0
      modifies port`address
      ensures v == QuadAt(port.space, a, reg)
    {
      v := port.Read(a, reg);
      QuadIsDword(port.space, a, reg);
    }

    /** pci_read_device_info. */
    method ReadDeviceInfo(a: Address) returns (r: Record)
      modifies port`address
      ensures r == RecordOf(port.space, a) && IsHeaderOf(r, port.space, a)
    {
      r := ReadFields(a);
      RecordIsHeader(port.space, a);
    }

    method ReadFields(a: Address) returns (r: Record)
      modifies port`address
      ensures r == RecordOf(port.space, a)
    {
      hide PairAt, QuadAt, ByteAt, BarsOf;
      var vendorId := ReadPair(a, 0x00);
      var deviceId := ReadPair(a, 0x02);
      var command := ReadPair(a, 0x04);
      var status := ReadPair(a, 0x06);
      var revisionId := port.Read8(a, 0x08);
      var progIf := port.Read8(a, 0x09);
      var subclass := port.Read8(a, 0x0A);
      var classCode := port.Read8(a, 0x0B);
      var cacheLineSize := port.Read8(a, 0x0C);
      var latencyTimer := port.Read8(a, 0x0D);
      var headerType := port.Read8(a, 0x0E);
      var bist := port.Read8(a, 0x0F);
      var bar := ReadBars(a);
      var cardbusCis := ReadQuad(a, 0x28);
      var subsystemVendorId := ReadPair(a, 0x2C);
      var subsystemId := ReadPair(a, 0x2E);
      var expansionRom := ReadQuad(a, 0x30);
      var capabilitiesPtr := port.Read8(a, 0x34);
      var interruptLine := port.Read8(a, 0x3C);
      var interruptPin := port.Read8(a, 0x3D);
      var minGrant := port.Read8(a, 0x3E);
      var maxLatency := port.Read8(a, 0x3F);
      r := Record(a, vendorId, deviceId, command, status, revisionId, progIf, subclass, classCode,
                  cacheLineSize, latencyTimer, headerType, bist, bar, cardbusCis,
                  subsystemVendorId, subsystemId, expansionRom,
                  capabilitiesPtr, interruptLine, interruptPin, minGrant, maxLatency);
    }

    method ReadBars(a: Address) returns (b: seq<bv32>)
      modifies port`address
      ensures b == BarsOf(port.space, a)
    {
      hide QuadAt;
      b := [];
      var v := ReadQuad(a, 0x10); b := b + [v];
      v := ReadQuad(a, 0x14);     b := b + [v];
      v := ReadQuad(a, 0x18);     b := b + [v];
      v := ReadQuad(a, 0x1C);     b := b + [v];
      v := ReadQuad(a, 0x20);     b := b + [v];
      v := ReadQuad(a, 0x24);     b := b + [v];
    }

    /** Write the record of a function to the next free entry, without counting it. */
    method Fill(a: Address) returns (r: Record)
      requires Shape() && count < MAX_DEVICES
      modifies port`address, devices
      ensures r == RecordOf(port.space, a)
      ensures devices[..] == old(devices[..])[count := r]
    {
      hide RecordOf, IsHeaderOf;
      r := ReadDeviceInfo(a);
      devices[count] := r;
    }

    /** The table after the first n slots, when it was `was` with `start` entries before. */
    ghost predicate Scanned(was: seq<Record>, start: nat, bus: bv8, n: nat)
      requires n <= 256
      reads this, devices, port
    {
      Shape() && Holds(devices[..], count, was, start, Contribution(port.space, bus, n))
    }

    // Lookups: the first matching record, or none

    method FindDevice(vendorId: bv16, deviceId: bv16) returns (i: int)
      requires Shape()
      ensures FirstWithIds(i, devices[..count], vendorId, deviceId)
    {
      i := 0;
      while i < count
        invariant 0 <= i <= count
        invariant forall j :: 0 <= j < i ==> !HasIds(devices[j], vendorId, deviceId)
      {
        if devices[i].vendorId == vendorId && devices[i].deviceId == deviceId { return; }
        i := i + 1;
      }
      i := -1;
    }

    method FindClass(classCode: bv8, subclass: bv8, progIf: bv8) returns (i: int)
      requires Shape()
      ensures FirstOfClass(i, devices[..count], classCode, subclass, progIf)
    {
      i := 0;
      while i < count
        invariant 0 <= i <= count
        invariant forall j :: 0 <= j < i ==> !OfClass(devices[j], classCode, subclass, progIf)
      {
        if OfClass(devices[i], classCode, subclass, progIf) { return; }
        i := i + 1;
      }
      i := -1;
    }

    method GetDevice(a: Address) returns (i: int)
      requires Shape()
      ensures FirstAt(i, devices[..count], a)
    {
      i := 0;
      while i < count
        invariant 0 <= i <= count
        invariant forall j :: 0 <= j < i ==> devices[j].addr != a
      {
        if devices[i].addr == a { return; }
        i := i + 1;
      }
      i := -1;
    }

    /** pci_init: clear the table and scan bus 0. */
    method Init()
      requires Shape() && QuietBridges(port.space, 0)
      modifies port`address, devices, this`count
      ensures Shape() && devices[..count] == Table(port.space, 0)
      ensures forall i :: 0 <= i < count ==> IsHeaderOf(devices[i], port.space, devices[i].addr)
      ensures port.space == old(port.space)
    {
      count := 0;
      forall i | 0 <= i < MAX_DEVICES { devices[i] := CLEARED; }
      var found := ScanBus(0);
      TableIsTake(port.space, 0);
      hide Table, Contribution;
      assert [] + Contribution(port.space, 0, 256) == Contribution(port.space, 0, 256);
      hide IsHeaderOf;
      forall i | 0 <= i < count ensures IsHeaderOf(devices[i], port.space, devices[i].addr) {
        assert devices[i] == devices[..count][i];
        TableHeaders(port.space, 0, i);
      }
    }

    /** pci_scan_bus: the records of the bus are appended to the table, as far as it has room. */
    method ScanBus(bus: bv8) returns (found: nat)
      requires Shape() && QuietBridges(port.space, bus)
      modifies port`address, devices, this`count
      ensures Shape() && count == old(count) + found
      ensures devices[..count] == Take(old(devices[..count]) + Contribution(port.space, bus, 256), MAX_DEVICES)
      ensures devices[count..] == old(devices[..])[count..]
      decreases if EmptyBus(port.space, bus) then 0 else 1, 3
    {
      ghost var was, start := devices[..], count;
      NothingScanned(bus);
      hide *;
      found := ScanDevices(bus, was, start);
      FullyScanned(was, start, bus, Contribution(port.space, bus, 256));
    }

    /** The outer loop over the devices, until the table has no room. */
    method ScanDevices(bus: bv8, ghost was: seq<Record>, ghost start: nat) returns (found: nat)
      requires QuietBridges(port.space, bus) && Scanned(was, start, bus, 0) && count == start
      modifies port`address, devices, this`count
      ensures Shape() && start <= |was| == MAX_DEVICES && count == start + found
      ensures Holds(devices[..], count, was, start, Room(Contribution(port.space, bus, 256), start))
      decreases if EmptyBus(port.space, bus) then 0 else 1, 2
    {
      hide Contribution, QuietBridges, EmptyBus, Holds, Take, Room, Scanned;
      found := 0;
      var device := 0;
      while device < 32
        invariant device <= 32 && count == start + found && Scanned(was, start, bus, 8 * device)
      {
        var full, more := ScanDevice(bus, device, was, start);
        found := found + more;
        if full { return; }
        device := device + 1;
      }
      BusScanned(was, start, bus);
    }

    lemma NothingScanned(bus: bv8)
      requires Shape()
      ensures Scanned(devices[..], count, bus, 0)
    {
      NothingYet(port.space, bus);
      HoldsNothing(devices[..], count);
      hide Contribution;
    }

    lemma BusScanned(was: seq<Record>, start: nat, bus: bv8)
      requires Scanned(was, start, bus, 256)
      ensures start <= |was| == MAX_DEVICES && Shape()
      ensures Holds(devices[..], count, was, start, Room(Contribution(port.space, bus, 256), start))
    {
      hide Contribution;
      AllFit(devices[..], count, was, start, Contribution(port.space, bus, 256));
    }

    /** What the table then is. */
    lemma FullyScanned(was: seq<Record>, start: nat, bus: bv8, all: seq<Record>)
      requires Shape() && start <= |was| == MAX_DEVICES
      requires Holds(devices[..], count, was, start, Room(all, start))
      ensures devices[..count] == Take(was[..start] + all, MAX_DEVICES) && devices[count..] == was[count..]
    {
      assert devices[..][..count] == devices[..count] && devices[..][count..] == devices[count..];
    }

    /** The inner loop over the functions of one device; `full` when the table has no room. */
    method ScanDevice(bus: bv8, device: nat, ghost was: seq<Record>, ghost start: nat) returns (full: bool, more: nat)
      requires device < 32 && QuietBridges(port.space, bus) && Scanned(was, start, bus, 8 * device)
      modifies port`address, devices, this`count
      ensures !full ==> Scanned(was, start, bus, 8 * device + 8)
      ensures full ==> Shape() && start <= |was| == MAX_DEVICES
                       && Holds(devices[..], count, was, start, Room(Contribution(port.space, bus, 256), start))
      ensures count == old(count) + more
      decreases if EmptyBus(port.space, bus) then 0 else 1, 1
    {
      hide Contribution, Exists, MultiFunction, IsBridge, Slot, QuietBridges, EmptyBus, RecordOf, Enumerated, SlotAt;
      ghost var first := Slot(bus, device, 0);
      full, more := false, 0;
      var function_ := 0;
      while function_ < 8
        invariant function_ <= 8 && Scanned(was, start, bus, 8 * device + function_) && count == old(count) + more
        invariant function_ > 0 ==> !Exists(port.space, first) || MultiFunction(port.space, first)
      {
        var a := Slot(bus, device, function_);
        var exists_ := DeviceExists(a);
        SlotCases(port.space, bus, device, function_);
        if exists_ {
          if count >= MAX_DEVICES {
            FullTable(port.space, bus, start, 8 * device + function_);
            return true, more;
          }
          var multi := RecordFunction(bus, device, function_, was, start);
          more := more + 1;
          if function_ == 0 && !multi {
            RestSkipped(port.space, bus, device);
            return;
          }
        } else {
          ContributionSkip(port.space, bus, device, function_);
        }
        function_ := function_ + 1;
      }
    }

    /** One function that is there: fill the entry, look behind a bridge, count the entry; tells
        the multi-function bit the entry then has. */
    method RecordFunction(bus: bv8, device: nat, function_: nat, ghost was: seq<Record>, ghost start: nat)
        returns (multi: bool)
      requires device < 32 && function_ < 8 && QuietBridges(port.space, bus)
      requires Scanned(was, start, bus, 8 * device + function_) && count < MAX_DEVICES
      requires Enumerated(port.space, bus, device, function_)
      modifies port`address, devices, this`count
      ensures Scanned(was, start, bus, 8 * device + function_ + 1) && count == old(count) + 1
      ensures multi == MultiFunction(port.space, Slot(bus, device, function_))
      decreases if EmptyBus(port.space, bus) then 0 else 1, 0
    {
      hide Slot, RecordOf, Enumerated, MultiFunction, IsBridge, EmptyBus, QuietBridges, Contribution, Holds;
      ghost var n := 8 * device + function_;
      var a := Slot(bus, device, function_);
      FunctionFacts(port.space, bus, device, function_);
      HoldsOneMore(devices[..], count, was, start, Contribution(port.space, bus, n), RecordOf(port.space, a));
      FillEntry(a);
      multi := devices[..][count].headerType & 0x80 != 0;
      count := count + 1;
    }

    /** Fill the next entry, and scan behind a bridge. */
    method FillEntry(a: Address)
      requires Shape() && count < MAX_DEVICES
      requires IsBridge(port.space, a) ==> EmptyBus(port.space, Secondary(port.space, a))
      modifies port`address, devices, this`count
      ensures count == old(count) && devices[..] == old(devices[..])[count := RecordOf(port.space, a)]
      decreases 0, 5
    {
      RecordClass(port.space, a);
      hide RecordOf, IsBridge, MultiFunction, Secondary, EmptyBus;
      var r := Fill(a);
      if r.classCode == 6 && r.subclass == 4 { LookBehind(a); }
    }

    /** The recursive scan of the bus behind a bridge, when nothing is there. */
    method LookBehind(a: Address)
      requires Shape() && EmptyBus(port.space, Secondary(port.space, a))
      modifies port`address, devices, this`count
      ensures count == old(count) && devices[..] == old(devices[..])
      decreases 0, 4
    {
      hide EmptyBus, QuietBridges, ByteAt, Contribution;
      ghost var filled, counted := devices[..], count;
      NothingBehind(port.space, Secondary(port.space, a));
      EmptyIsQuiet(port.space, Secondary(port.space, a));
      var secondary := port.Read8(a, 0x19);
      var behind := ScanBus(secondary);
      NoneAdded(filled, counted, devices[..], count);
    }
  }

  lemma NoneAdded(was: seq<Record>, start: nat, d: seq<Record>, count: nat)
    requires |was| == |d| == MAX_DEVICES && start <= MAX_DEVICES && count <= MAX_DEVICES
    requires d[..count] == Take(was[..start] + [], MAX_DEVICES) && d[count..] == was[count..]
    ensures count == start && d == was
  {
    assert was[..start] + [] == was[..start];
    assert |d[..count]| == count;
    assert d == d[..count] + d[count..] && was == was[..count] + was[count..];
  }

  /** The records of the enumerated functions among the first n slots. */
  ghost function Contribution(space: Space, bus: bv8, n: nat): (r: seq<Record>)
    requires n <= 256
    ensures |r| == |Chosen(Wanted(space, bus), n)|
  {
    Records(space, bus, Chosen(Wanted(space, bus), n))
  }

  lemma NothingYet(space: Space, bus: bv8)
    ensures Contribution(space, bus, 0) == []
  {
  }

  lemma ContributionStep(space: Space, bus: bv8, n: nat)
    requires n < 256
    ensures Contribution(space, bus, n + 1) == Contribution(space, bus, n)
              + if Enumerated(space, bus, n / 8, n % 8) then [RecordOf(space, SlotAt(bus, n))] else []
  {
    hide RecordOf, Enumerated, SlotAt;
    var w := Wanted(space, bus);
    assert w[n] == Enumerated(space, bus, n / 8, n % 8);
    assert Chosen(w, n + 1) == Chosen(w, n) + if w[n] then [n] else [];
  }

  lemma ContributionSkip(space: Space, bus: bv8, device: nat, function_: nat)
    requires device < 32 && function_ < 8 && !Enumerated(space, bus, device, function_)
    ensures Contribution(space, bus, 8 * device + function_ + 1) == Contribution(space, bus, 8 * device + function_)
  {
    var n := 8 * device + function_;
    assert n / 8 == device && n % 8 == function_;
    ContributionStep(space, bus, n);
  }

  lemma SlotNumber(bus: bv8, device: nat, function_: nat)
    requires device < 32 && function_ < 8
    ensures var n := 8 * device + function_;
            n < 256 && n / 8 == device && n % 8 == function_ && SlotAt(bus, n) == Slot(bus, device, function_)
  {
  }

  /** In the loop over the functions a function that is there is enumerated, and one that is not
      is not. */
  lemma SlotCases(space: Space, bus: bv8, device: nat, function_: nat)
    requires device < 32 && function_ < 8
    ensures !Exists(space, Slot(bus, device, function_)) ==> !Enumerated(space, bus, device, function_)
    ensures function_ > 0 ==> !Exists(space, Slot(bus, device, 0)) || MultiFunction(space, Slot(bus, device, 0)) ==>
              (Enumerated(space, bus, device, function_) <==> Exists(space, Slot(bus, device, function_)))
    ensures function_ == 0 ==> (Enumerated(space, bus, device, 0) <==> Exists(space, Slot(bus, device, 0)))
  {
    hide Exists, MultiFunction, Slot;
  }

  lemma NotEmpty(space: Space, bus: bv8, n: nat)
    requires n < 256 && Enumerated(space, bus, n / 8, n % 8)
    ensures !EmptyBus(space, bus)
  {
    assert Exists(space, SlotAt(bus, n));
  }

  lemma BehindBridge(space: Space, bus: bv8, n: nat)
    requires n < 256 && QuietBridges(space, bus) && Enumerated(space, bus, n / 8, n % 8)
    requires IsBridge(space, SlotAt(bus, n))
    ensures EmptyBus(space, Secondary(space, SlotAt(bus, n)))
  {
    hide Enumerated, IsBridge, SlotAt, EmptyBus;
    assert Wanted(space, bus)[n];
  }

  /** All that scanning one function needs to know. */
  lemma FunctionFacts(space: Space, bus: bv8, device: nat, function_: nat)
    requires device < 32 && function_ < 8 && QuietBridges(space, bus) && Enumerated(space, bus, device, function_)
    ensures var n, a := 8 * device + function_, Slot(bus, device, function_);
            && !EmptyBus(space, bus)
            && Contribution(space, bus, n + 1) == Contribution(space, bus, n) + [RecordOf(space, a)]
            && (IsBridge(space, a) ==> EmptyBus(space, Secondary(space, a)))
            && (RecordOf(space, a).headerType & 0x80 != 0 <==> MultiFunction(space, a))
  {
    var n, a := 8 * device + function_, Slot(bus, device, function_);
    SlotNumber(bus, device, function_);
    NotEmpty(space, bus, n);
    ContributionStep(space, bus, n);
    RecordClass(space, a);
    hide Slot, SlotAt, RecordOf, Enumerated, MultiFunction, IsBridge, EmptyBus, QuietBridges, Contribution;
    if IsBridge(space, a) { BehindBridge(space, bus, n); }
  }

  lemma NothingBehind(space: Space, bus: bv8)
    requires EmptyBus(space, bus)
    ensures Contribution(space, bus, 256) == []
  {
    hide Exists, SlotAt, RecordOf;
    forall n | 0 <= n < 256 ensures !Wanted(space, bus)[n] {
      assert !Exists(space, SlotAt(bus, n));
      SlotAtIs(bus, n);
    }
    ChosenGrows(Wanted(space, bus), 0, 256);
  }

  lemma SlotAtIs(bus: bv8, n: nat)
    requires n < 256
    ensures SlotAt(bus, n) == Slot(bus, n / 8, n % 8)
  {
  }

  lemma EmptyIsQuiet(space: Space, bus: bv8)
    requires EmptyBus(space, bus)
    ensures QuietBridges(space, bus)
  {
    hide Exists, SlotAt;
    forall n | 0 <= n < 256 ensures !Wanted(space, bus)[n] {
      assert !Exists(space, SlotAt(bus, n));
      SlotAtIs(bus, n);
    }
  }

  lemma TableIsTake(space: Space, bus: bv8)
    ensures Take(Contribution(space, bus, 256), MAX_DEVICES) == Table(space, bus)
  {
    hide RecordOf, SlotAt, Wanted;
  }

  /** With no room left the table is complete. */
  lemma FullTable(space: Space, bus: bv8, start: nat, n: nat)
    requires n <= 256 && start + |Contribution(space, bus, n)| == MAX_DEVICES
    ensures Contribution(space, bus, n) == Room(Contribution(space, bus, 256), start)
  {
    hide RecordOf, Enumerated, SlotAt, Wanted;
    ChosenGrows(Wanted(space, bus), n, 256);
    assert Contribution(space, bus, n) <= Contribution(space, bus, 256);
  }

  /** A single-function device has nothing beyond function 0. */
  lemma RestSkipped(space: Space, bus: bv8, device: nat)
    requires device < 32 && Exists(space, Slot(bus, device, 0)) && !MultiFunction(space, Slot(bus, device, 0))
    ensures Contribution(space, bus, 8 * device + 8) == Contribution(space, bus, 8 * device + 1)
  {
    var w := Wanted(space, bus);
    hide RecordOf, Exists, MultiFunction, Slot;
    forall k | 8 * device + 1 <= k < 8 * device + 8 ensures !w[k] {
      assert k / 8 == device && k % 8 != 0;
    }
    ChosenGrows(w, 8 * device + 1, 8 * device + 8);
  }
}
