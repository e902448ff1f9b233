/** Configuration access of kernel/pci.c: the address word and the 8-, 16- and 32-bit accessors,
    over a space of dword registers behind one address and one data port. */
module PciConfig {

  const REGISTER_MASK: bv8 := 0xFC
  const OFFSET_MASK: bv8 := 3
  const ABSENT: bv32 := 0xFFFF_FFFF

  /** A function on the bus. The record of the source also carries these three fields. */
  datatype Address = Address(bus: bv8, device: bv8, function_: bv8) {
    predicate Valid() { device < 32 && function_ < 8 }
  }

  function MakeAddress(a: Address, reg: bv8): bv32 { Pack(a, reg & REGISTER_MASK) }

  function Pack(a: Address, low: bv8): bv32 {
    (1 << 31) | ((a.bus as bv32) << 16) | ((a.device as bv32) << 11) | ((a.function_ as bv32) << 8) | (low as bv32)
  }

  function BusOf(w: bv32): bv8 { ((w >> 16) & 0xFF) as bv8 }

  function DeviceOf(w: bv32): bv8 { ((w >> 11) & 0x1F) as bv8 }

  function FunctionOf(w: bv32): bv8 { ((w >> 8) & 7) as bv8 }

  function RegisterOf(w: bv32): bv8 { (w & 0xFC) as bv8 }

  lemma PackedFields(a: Address, low: bv8)
    requires a.Valid() && low & REGISTER_MASK == low
    ensures BusOf(Pack(a, low)) == a.bus && DeviceOf(Pack(a, low)) == a.device
    ensures FunctionOf(Pack(a, low)) == a.function_ && RegisterOf(Pack(a, low)) == low
  {
  }

  lemma PackInjective(a: Address, l: bv8, b: Address, m: bv8)
    requires a.Valid() && b.Valid() && l & REGISTER_MASK == l && m & REGISTER_MASK == m
    requires Pack(a, l) == Pack(b, m)
    ensures a == b && l == m
  {
    PackedFields(a, l);
    PackedFields(b, m);
  }

  lemma MaskIdempotent(r: bv8)
    ensures (r & REGISTER_MASK) & REGISTER_MASK == r & REGISTER_MASK
  {
  }

  /** Two accesses use one address exactly when they name the same dword of the same function. */
  lemma AddressInjective(a: Address, r: bv8, b: Address, s: bv8)
    requires a.Valid() && b.Valid()
    ensures MakeAddress(a, r) == MakeAddress(b, s) <==> a == b && r & REGISTER_MASK == s & REGISTER_MASK
  {
    MaskIdempotent(r);
    MaskIdempotent(s);
    if MakeAddress(a, r) == MakeAddress(b, s) {
      PackInjective(a, r & REGISTER_MASK, b, s & REGISTER_MASK);
    }
  }

  /** The word for the address port: enabled, with bus, device, function and register in their places
      and zeros between. */
  lemma AddressFormat(a: Address, reg: bv8)
    requires a.Valid()
    ensures var w := MakeAddress(a, reg);
            && (w >> 31) & 1 == 1 && (w >> 24) & 0x7F == 0
            && (w >> 16) & 0xFF == a.bus as bv32 && (w >> 11) & 0x1F == a.device as bv32
            && (w >> 8) & 7 == a.function_ as bv32 && w & 0xFF == (reg & 0xFC) as bv32
  {
  }

  /** A device number of 32 would collide with device 0 of the next bus. */
  lemma DeviceRangeNeeded()
    ensures MakeAddress(Address(0, 32, 0), 0) == MakeAddress(Address(1, 0, 0), 0)
  {
  }

  // Bytes of a dword

  function ShiftOf(reg: bv8): bv32 { ((reg & OFFSET_MASK) as bv32) << 3 }

  function ByteIn(w: bv32, reg: bv8): bv8 { ((w >> ShiftOf(reg)) & 0xFF) as bv8 }

  /** The 16 bits from that byte up, with zeros from beyond the dword. */
  function Word16(w: bv32, reg: bv8): bv16 { ((w >> ShiftOf(reg)) & 0xFFFF) as bv16 }

  function Pair(low: bv8, high: bv8): bv16 { (low as bv16) | ((high as bv16) << 8) }

  function Quad(b0: bv8, b1: bv8, b2: bv8, b3: bv8): bv32 {
    (b0 as bv32) | ((b1 as bv32) << 8) | ((b2 as bv32) << 16) | ((b3 as bv32) << 24)
  }

  function Replace8(w: bv32, reg: bv8, v: bv8): bv32 {
    (w & !(0xFF << ShiftOf(reg))) | ((v as bv32) << ShiftOf(reg))
  }

  function Replace16(w: bv32, reg: bv8, v: bv16): bv32 {
    (w & !(0xFFFF << ShiftOf(reg))) | ((v as bv32) << ShiftOf(reg))
  }

  function Low(v: bv16): bv8 { (v & 0xFF) as bv8 }

  function High(v: bv16): bv8 { (v >> 8) as bv8 }

  lemma Replace8Bytes(w: bv32, reg: bv8, v: bv8, other: bv8)
    ensures ByteIn(Replace8(w, reg, v), other) ==
            if other & OFFSET_MASK == reg & OFFSET_MASK then v else ByteIn(w, other)
  {
    if other & OFFSET_MASK == reg & OFFSET_MASK {
      Replaced8Same(w, reg, v, other);
    } else {
      Replaced8Other(w, reg, v, other);
    }
  }

  lemma Replaced8Same(w: bv32, reg: bv8, v: bv8, other: bv8)
    requires other & OFFSET_MASK == reg & OFFSET_MASK
    ensures ByteIn(Replace8(w, reg, v), other) == v
  {
  }

  lemma Replaced8Other(w: bv32, reg: bv8, v: bv8, other: bv8)
    requires other & OFFSET_MASK != reg & OFFSET_MASK
    ensures ByteIn(Replace8(w, reg, v), other) == ByteIn(w, other)
  {
  }

  ghost predicate Replaced16(w: bv32, reg: bv8, v: bv16, other: bv8) {
    ByteIn(Replace16(w, reg, v), other) ==
    if other & OFFSET_MASK == reg & OFFSET_MASK then Low(v)
    else if other & OFFSET_MASK == (reg & OFFSET_MASK) + 1 then High(v)
    else ByteIn(w, other)
  }

  lemma Replaced16At0(w: bv32, reg: bv8, v: bv16, other: bv8)
    requires reg & OFFSET_MASK == 0
    ensures Replaced16(w, reg, v, other)
  {
  }

  lemma Replaced16At1(w: bv32, reg: bv8, v: bv16, other: bv8)
    requires reg & OFFSET_MASK == 1
    ensures Replaced16(w, reg, v, other)
  {
  }

  lemma Replaced16At2(w: bv32, reg: bv8, v: bv16, other: bv8)
    requires reg & OFFSET_MASK == 2
    ensures Replaced16(w, reg, v, other)
  {
  }

  lemma Replaced16At3(w: bv32, reg: bv8, v: bv16, other: bv8)
    requires reg & OFFSET_MASK == 3
    ensures Replaced16(w, reg, v, other)
  {
  }

  lemma OffsetCases(reg: bv8)
    ensures var o := reg & OFFSET_MASK; o == 0 || o == 1 || o == 2 || o == 3
  {
  }

  lemma Replace16Bytes(w: bv32, reg: bv8, v: bv16, other: bv8)
    ensures Replaced16(w, reg, v, other)
  {
    OffsetCases(reg);
    if reg & OFFSET_MASK == 0 {
      Replaced16At0(w, reg, v, other);
    } else if reg & OFFSET_MASK == 1 {
      Replaced16At1(w, reg, v, other);
    } else if reg & OFFSET_MASK == 2 {
      Replaced16At2(w, reg, v, other);
    } else {
      Replaced16At3(w, reg, v, other);
    }
  }

  lemma Word16Bytes(w: bv32, reg: bv8)
    ensures Word16(w, reg) == Pair(ByteIn(w, reg), if reg & OFFSET_MASK == 3 then 0 else ByteIn(w, reg + 1))
  {
  }

  lemma DwordBytes(w: bv32)
    ensures w == Quad(ByteIn(w, 0), ByteIn(w, 1), ByteIn(w, 2), ByteIn(w, 3))
  {
  }

  lemma PairInjective(a: bv8, b: bv8, c: bv8)
    ensures Pair(a, b) == Pair(a, c) <==> b == c
  {
  }

  // Configuration space

  /** A register, under the word that addresses it. */
  datatype Location = Location(word: bv32)

  type Space = map<Location, bv32>

  function At(a: Address, reg: bv8): Location { Location(MakeAddress(a, reg)) }

  function Load(space: Space, l: Location): bv32 { if l in space then space[l] else ABSENT }

  function Dword(space: Space, a: Address, reg: bv8): bv32 { Load(space, At(a, reg)) }

  /** The 256-byte memory of a function. */
  function ByteAt(space: Space, a: Address, reg: bv8): bv8 { ByteIn(Dword(space, a, reg), reg) }

  /** What a register with the given writable bits holds after a write. */
  function Merged(was: bv32, writable: bv32, v: bv32): bv32 { (was & !writable) | (v & writable) }

  /** A write to the data port: the writable bits of a register that is there. */
  function Store(space: Space, writable: bv32 -> bv32, l: Location, v: bv32): Space {
    if l in space then space[l := Merged(space[l], writable(l.word), v)] else space
  }

  ghost predicate Present(space: Space, a: Address) {
    forall reg: bv8 :: At(a, reg) in space
  }

  /** Every register of the function is plain read/write memory. */
  ghost predicate Plain(writable: bv32 -> bv32, a: Address) {
    forall reg: bv8 :: writable(At(a, reg).word) == 0xFFFF_FFFF
  }

  lemma AllOnes(w: bv32, v: bv32)
    ensures Merged(w, 0xFFFF_FFFF, v) == v
  {
  }

  lemma UpdateLookup<K, V>(m: map<K, V>, k: K, v: V, j: K)
    ensures k in m[k := v] && m[k := v][k] == v
    ensures j != k ==> (j in m[k := v] <==> j in m) && (j in m ==> m[k := v][j] == m[j])
  {
  }

  lemma StorePlain(space: Space, writable: bv32 -> bv32, l: Location, v: bv32, n: Location)
    requires l in space && writable(l.word) == 0xFFFF_FFFF
    ensures Load(Store(space, writable, l, v), n) == if n == l then v else Load(space, n)
  {
    assert Store(space, writable, l, v) == space[l := v] by { AllOnes(space[l], v); }
    UpdateLookup(space, l, v, n);
  }

  /** A dword store changes its dword and no other, on this function and on every other. */
  lemma StoreDword(space: Space, writable: bv32 -> bv32, a: Address, reg: bv8, v: bv32, b: Address, other: bv8)
    requires a.Valid() && b.Valid() && Present(space, a) && Plain(writable, a)
    ensures Dword(Store(space, writable, At(a, reg), v), b, other) ==
            if b == a && other & REGISTER_MASK == reg & REGISTER_MASK then v else Dword(space, b, other)
  {
    AddressInjective(a, reg, b, other);
    StorePlain(space, writable, At(a, reg), v, At(b, other));
  }

  function After8(space: Space, writable: bv32 -> bv32, a: Address, reg: bv8, v: bv8): Space {
    Store(space, writable, At(a, reg), Replace8(Dword(space, a, reg), reg, v))
  }

  function After16(space: Space, writable: bv32 -> bv32, a: Address, reg: bv8, v: bv16): Space {
    Store(space, writable, At(a, reg), Replace16(Dword(space, a, reg), reg, v))
  }

  lemma RegisterSplit(r: bv8, s: bv8)
    ensures r & REGISTER_MASK == s & REGISTER_MASK && r & OFFSET_MASK == s & OFFSET_MASK <==> r == s
    ensures r & REGISTER_MASK == s & REGISTER_MASK && s & OFFSET_MASK == (r & OFFSET_MASK) + 1
            <==> r & OFFSET_MASK != 3 && s == r + 1
  {
  }

  /** An 8-bit write is a one-byte memory update: that byte reads back, every other byte of every
      function keeps its value. */
  lemma Write8IsByteUpdate(space: Space, writable: bv32 -> bv32, a: Address, reg: bv8, v: bv8, b: Address, other: bv8)
    requires a.Valid() && b.Valid() && Present(space, a) && Plain(writable, a)
    ensures ByteAt(After8(space, writable, a, reg, v), b, other) ==
            if b == a && other == reg then v else ByteAt(space, b, other)
  {
    var w := Dword(space, a, reg);
    StoreDword(space, writable, a, reg, Replace8(w, reg, v), b, other);
    RegisterSplit(reg, other);
    if b == a && other & REGISTER_MASK == reg & REGISTER_MASK {
      SameDword(space, a, reg, other);
      Replace8Bytes(w, reg, v, other);
    }
  }

  lemma SameDword(space: Space, a: Address, r: bv8, s: bv8)
    requires r & REGISTER_MASK == s & REGISTER_MASK
    ensures Dword(space, a, r) == Dword(space, a, s)
  {
  }

  /** A 16-bit write is a little-endian two-byte update, and a one-byte update at offset 3, where
      the high byte falls off the dword. */
  lemma Write16IsPairUpdate(space: Space, writable: bv32 -> bv32, a: Address, reg: bv8, v: bv16, b: Address, other: bv8)
    requires a.Valid() && b.Valid() && Present(space, a) && Plain(writable, a)
    ensures ByteAt(After16(space, writable, a, reg, v), b, other) ==
            if b == a && other == reg then Low(v)
            else if b == a && reg & OFFSET_MASK != 3 && other == reg + 1 then High(v)
            else ByteAt(space, b, other)
  {
    var w := Dword(space, a, reg);
    StoreDword(space, writable, a, reg, Replace16(w, reg, v), b, other);
    RegisterSplit(reg, other);
    if b == a && other & REGISTER_MASK == reg & REGISTER_MASK {
      SameDword(space, a, reg, other);
      Replace16Bytes(w, reg, v, other);
    }
  }

  /** A 16-bit read is the little-endian pair exactly when it stays inside a dword (or the byte
      it misses is zero). */
  lemma Read16Exact(space: Space, a: Address, reg: bv8)
    ensures Word16(Dword(space, a, reg), reg) == Pair(ByteAt(space, a, reg), ByteAt(space, a, reg + 1))
            <==> reg & OFFSET_MASK != 3 || ByteAt(space, a, reg + 1) == 0
  {
    var w := Dword(space, a, reg);
    Word16Bytes(w, reg);
    if reg & OFFSET_MASK != 3 {
      RegisterSplit(reg, reg + 1);
      SameDword(space, a, reg, reg + 1);
    } else {
      PairInjective(ByteAt(space, a, reg), ByteAt(space, a, reg + 1), 0);
    }
  }

  /** Such a loss: a word across two dwords with a high byte of 1. */
  lemma Read16Example(a: Address)
    requires a.Valid()
    ensures var space := map[At(a, 0) := 0, At(a, 4) := 1];
            ByteAt(space, a, 4) == 1 && Word16(Dword(space, a, 3), 3) == 0
  {
    AddressInjective(a, 0, a, 4);
    AddressInjective(a, 0, a, 3);
    assert (3 as bv8) & REGISTER_MASK == 0 && (4 as bv8) & REGISTER_MASK == 4 && (0 as bv8) & REGISTER_MASK == 0;
    hide MakeAddress, Pack;
  }

  /** Reading back: what an accessor wrote is what the same accessor reads, byte-wise at every
      offset and word-wise inside a dword. */
  lemma ReadBack(space: Space, writable: bv32 -> bv32, a: Address, reg: bv8, v: bv8, v16: bv16)
    requires a.Valid() && Present(space, a) && Plain(writable, a)
    ensures ByteAt(After8(space, writable, a, reg, v), a, reg) == v
    ensures reg & OFFSET_MASK != 3 ==> Word16(Dword(After16(space, writable, a, reg, v16), a, reg), reg) == v16
  {
    Write8IsByteUpdate(space, writable, a, reg, v, a, reg);
    if reg & OFFSET_MASK != 3 {
      Write16IsPairUpdate(space, writable, a, reg, v16, a, reg);
      Write16IsPairUpdate(space, writable, a, reg, v16, a, reg + 1);
      Read16Exact(After16(space, writable, a, reg, v16), a, reg);
      assert reg != reg + 1;
      PairOfHalves(v16);
    }
  }

  lemma PairOfHalves(v: bv16)
    ensures Pair(Low(v), High(v)) == v
  {
  }

  // The ports and the accessors

  class ConfigPort {
    var address: bv32
    var space: Space
    const writable: bv32 -> bv32

    constructor (s: Space, w: bv32 -> bv32)
      ensures space == s && writable == w
    {
      address, space, writable := 0, s, w;
    }

    method OutAddress(w: bv32)
      modifies this`address
      ensures address == w
    {
      address := w;
    }

    method InData() returns (v: bv32)
      ensures v == Load(space, Location(address))
    {
      v := Load(space, Location(address));
    }

    method OutData(v: bv32)
      modifies this`space
      ensures space == Store(old(space), writable, Location(address), v)
    {
      space := Store(space, writable, Location(address), v);
    }

    method Read(a: Address, reg: bv8) returns (v: bv32)
      modifies this`address
      ensures v == Dword(space, a, reg)
    {
      OutAddress(MakeAddress(a, reg));
      v := InData();
    }

    method Write(a: Address, reg: bv8, v: bv32)
      modifies this
      ensures space == Store(old(space), writable, At(a, reg), v)
    {
      OutAddress(MakeAddress(a, reg));
      OutData(v);
    }

    method Read16(a: Address, reg: bv8) returns (v: bv16)
      modifies this`address
      ensures v == Word16(Dword(space, a, reg), reg)
    {
      MaskIdempotent(reg);
      var w := Read(a, reg & REGISTER_MASK);
      v := Word16(w, reg);
    }

    method Write16(a: Address, reg: bv8, v: bv16)
      modifies this
      ensures space == After16(old(space), writable, a, reg, v)
    {
      MaskIdempotent(reg);
      var w := Read(a, reg & REGISTER_MASK);
      Write(a, reg & REGISTER_MASK, Replace16(w, reg, v));
    }

    method Read8(a: Address, reg: bv8) returns (v: bv8)
      modifies this`address
      ensures v == ByteAt(space, a, reg)
    {
      MaskIdempotent(reg);
      var w := Read(a, reg & REGISTER_MASK);
      v := ByteIn(w, reg);
    }

    method Write8(a: Address, reg: bv8, v: bv8)
      modifies this
      ensures space == After8(old(space), writable, a, reg, v)
    {
      MaskIdempotent(reg);
      var w := Read(a, reg & REGISTER_MASK);
      Write(a, reg & REGISTER_MASK, Replace8(w, reg, v));
    }
  }
}
