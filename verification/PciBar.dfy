/** Sizing and reading base address registers (kernel/pci.c, section 6.2.5.1 of PCI Local Bus Specification 3.0). */
module PciBar {
  import opened PciConfig

  const ALL_ONES: bv32 := 0xFFFF_FFFF

  function BarReg(index: nat): bv8
    requires index < 6
  {
    match index
    case 0 => 0x10
    case 1 => 0x14
    case 2 => 0x18
    case 3 => 0x1C
    case 4 => 0x20
    case 5 => 0x24
  }

  predicate IsIo(bar: bv32) { bar & 1 != 0 }

  predicate Is64Bit(bar: bv32) { bar & 4 != 0 }

  /** The bits of the register that tell its type rather than an address. */
  function TypeBits(bar: bv32): bv32 { if IsIo(bar) then 3 else 0xF }

  /** The size the driver computes from what it reads back after writing all ones. */
  function SizeOf(bar: bv32, probe: bv32): bv32 {
    var mask := probe & !TypeBits(bar);
    if mask == 0 then 0 else !mask + 1
  }

  /** The C int with these bits. */
  function AsInt(w: bv32): int { if w & 0x8000_0000 != 0 then (w as int) - 0x1_0000_0000 else w as int }

  /** 2^k. */
  function Power(k: bv32): bv32
    requires k < 32
  {
    (1 as bv32) << k
  }

  /** The writable bits of a register that decodes 2^k bytes: every address bit from k up. */
  function DecodeMask(k: bv32): bv32
    requires k < 32
  {
    !(Power(k) - 1)
  }

  /** Address bits below k that the register shows as ones although they cannot be written. */
  function StrayBits(bar: bv32, k: bv32): bv32
    requires k < 32
  {
    bar & (Power(k) - 1) & !TypeBits(bar)
  }

  /** A register that is not empty and decodes 2^k bytes. */
  predicate Decodes(space: Space, writable: bv32 -> bv32, l: Location, k: bv32) {
    && l in space && space[l] != 0
    && (if IsIo(space[l]) then 2 else 4) <= k < 32 && writable(l.word) == DecodeMask(k)
  }

  lemma ProbeAndRestore(bar: bv32, k: bv32)
    requires k < 32
    ensures Merged(Merged(bar, DecodeMask(k), ALL_ONES), DecodeMask(k), bar) == bar
  {
  }

  lemma MemorySize(bar: bv32, k: bv32)
    requires 4 <= k < 32 && bar & 1 == 0
    ensures SizeOf(bar, Merged(bar, DecodeMask(k), ALL_ONES)) == Power(k) <==> StrayBits(bar, k) == 0
  {
  }

  lemma IoSize(bar: bv32, k: bv32)
    requires 2 <= k < 32 && bar & 1 != 0
    ensures SizeOf(bar, Merged(bar, DecodeMask(k), ALL_ONES)) == Power(k) <==> StrayBits(bar, k) == 0
  {
  }

  /** Sizing a register that decodes 2^k bytes, with the record in step with the device: the
      result is exactly 2^k if and only if no address bit below k is stuck at one, and in either
      case configuration space is as it was. */
  lemma SizingExact(space: Space, writable: bv32 -> bv32, l: Location, k: bv32)
    requires Decodes(space, writable, l, k)
    ensures var probed := Store(space, writable, l, ALL_ONES);
            && (SizeOf(space[l], Load(probed, l)) == Power(k) <==> StrayBits(space[l], k) == 0)
            && Store(probed, writable, l, space[l]) == space
  {
    var bar := space[l];
    TwoStores(space, writable, l, ALL_ONES, bar);
    if IsIo(bar) { IoSize(bar, k); } else { MemorySize(bar, k); }
    ProbeAndRestore(bar, k);
    UpdateTwice(space, l, bar, bar);
  }

  lemma UpdateTwice<K, V>(m: map<K, V>, k: K, a: V, b: V)
    ensures m[k := a][k := b] == m[k := b]
    ensures k in m && m[k] == b ==> m[k := b] == m
    ensures k in m && m[k := b] == m ==> m[k] == b
  {
    assert k in m && m[k := b] == m ==> m[k := b][k] == m[k];
  }

  /** Two writes to a register, and to no other. */
  lemma TwoStores(space: Space, writable: bv32 -> bv32, l: Location, v: bv32, v': bv32)
    requires l in space
    ensures var w := writable(l.word);
            var probed := Store(space, writable, l, v);
            && Load(probed, l) == Merged(space[l], w, v)
            && Store(probed, writable, l, v') == space[l := Merged(Merged(space[l], w, v), w, v')]
  {
    var m := Merged(space[l], writable(l.word), v);
    UpdateLookup(space, l, m, l);
    UpdateTwice(space, l, m, Merged(m, writable(l.word), v'));
  }

  /** What sizing register `index` does to configuration space, and the size it finds. */
  ghost predicate Sized(space: Space, writable: bv32 -> bv32, a: Address, bars: seq<bv32>, index: int,
                        size: bv32, space': Space)
    requires |bars| == 6
  {
    if index < 0 || index >= 6 || bars[index] == 0 then size == 0 && space' == space
    else
      var l := At(a, BarReg(index));
      var probed := Store(space, writable, l, ALL_ONES);
      size == SizeOf(bars[index], Load(probed, l)) && space' == Store(probed, writable, l, bars[index])
  }

  /** pci_get_bar_size: probe with all ones, write the recorded value back. */
  method GetBarSize(port: ConfigPort, a: Address, bars: seq<bv32>, index: int) returns (size: bv32)
    requires |bars| == 6
    modifies port
    ensures Sized(old(port.space), port.writable, a, bars, index, size, port.space)
    ensures SizedRight(old(port.space), port.writable, a, bars, index, size, port.space)
  {
    if index < 0 || index >= 6 { return 0; }
    var original := bars[index];
    if original == 0 {
      EmptyRegister(port.space, port.writable, a, bars, index);
      return 0;
    }
    port.Write(a, BarReg(index), ALL_ONES);
    var mask := port.Read(a, BarReg(index));
    port.Write(a, BarReg(index), original);
    size := SizeOf(original, mask);
    AlwaysSizedRight(old(port.space), port.writable, a, bars, index, size, port.space);
  }

  /** For a register that decodes 2^k bytes and a record in step with it, the size is 2^k if and
      only if no address bit below k is stuck at one, and configuration space is as it was. */
  ghost predicate SizedRight(space: Space, writable: bv32 -> bv32, a: Address, bars: seq<bv32>, index: int,
                             size: bv32, space': Space)
    requires |bars| == 6
  {
    0 <= index < 6 && At(a, BarReg(index)) in space && space[At(a, BarReg(index))] == bars[index] ==>
      forall k: bv32 :: Decodes(space, writable, At(a, BarReg(index)), k) ==>
        && (size == Power(k) <==> StrayBits(bars[index], k) == 0)
        && space' == space
  }

  lemma AlwaysSizedRight(space: Space, writable: bv32 -> bv32, a: Address, bars: seq<bv32>, index: int,
                         size: bv32, space': Space)
    requires |bars| == 6 && 0 <= index < 6 && Sized(space, writable, a, bars, index, size, space')
    ensures SizedRight(space, writable, a, bars, index, size, space')
  {
    hide Decodes, Sized, Power, StrayBits, BarReg;
    var l := At(a, BarReg(index));
    if l in space && space[l] == bars[index] {
      forall k: bv32 | Decodes(space, writable, l, k)
        ensures k < 32 && (size == Power(k) <==> StrayBits(bars[index], k) == 0) && space' == space
      {
        DecodesRange(space, writable, l, k);
        BarSizeExact(space, writable, a, bars, index, size, space', k);
      }
    }
  }

  lemma DecodesRange(space: Space, writable: bv32 -> bv32, l: Location, k: bv32)
    requires Decodes(space, writable, l, k)
    ensures k < 32
  {
  }

  lemma EmptyRegister(space: Space, writable: bv32 -> bv32, a: Address, bars: seq<bv32>, index: int)
    requires |bars| == 6 && 0 <= index < 6 && bars[index] == 0
    ensures SizedRight(space, writable, a, bars, index, 0, space)
  {
    hide Power, StrayBits, DecodeMask;
  }

  /** The same of one k. */
  lemma BarSizeExact(space: Space, writable: bv32 -> bv32, a: Address, bars: seq<bv32>, index: int,
                     size: bv32, space': Space, k: bv32)
    requires |bars| == 6 && 0 <= index < 6 && Sized(space, writable, a, bars, index, size, space')
    requires var l := At(a, BarReg(index)); Decodes(space, writable, l, k) && space[l] == bars[index]
    ensures size == Power(k) <==> StrayBits(bars[index], k) == 0
    ensures space' == space
  {
    SizingExact(space, writable, At(a, BarReg(index)), k);
    hide Store, Load, SizeOf, Power, StrayBits, BarReg;
  }

  /** A stale record is written back over the device's address: after probe and restore the
      register is as it was exactly when record and register agree on the writable bits. */
  lemma RestoreExact(was: bv32, w: bv32, recorded: bv32)
    ensures Merged(Merged(was, w, ALL_ONES), w, recorded) == was <==> recorded & w == was & w
  {
    MergeWritable(was, w, recorded);
    if recorded & w == was & w { MergeSame(was, w, recorded); }
  }

  /** For instance a window moved after it was recorded goes back to where it was. */
  lemma StaleExample()
    ensures Merged(Merged(0xF000_0000, 0xFFFF_F000, ALL_ONES), 0xFFFF_F000, 0xE000_0000) == 0xE000_0000
  {
  }

  lemma MergeWritable(was: bv32, w: bv32, recorded: bv32)
    ensures Merged(Merged(was, w, ALL_ONES), w, recorded) & w == recorded & w
  {
  }

  lemma MergeSame(was: bv32, w: bv32, recorded: bv32)
    requires recorded & w == was & w
    ensures Merged(Merged(was, w, ALL_ONES), w, recorded) == was
  {
  }

  /** Read as the C int that is returned, 2^k is itself up to 2^30; a 2 GiB window comes out
      negative. */
  lemma PowerAsInt(k: bv32)
    requires k < 32
    ensures AsInt(Power(k)) == Power(k) as int <==> k <= 30
  {
    assert Power(k) & 0x8000_0000 == 0 <==> k <= 30;
  }

  // Addresses

  /** pci_get_bar_address on the recorded registers. */
  function BarAddress(bars: seq<bv32>, index: int): bv64
    requires |bars| == 6
  {
    if index < 0 || index >= 6 || bars[index] == 0 then 0
    else if IsIo(bars[index]) then (bars[index] & !3) as bv64
    else
      var low := (bars[index] & !0xF) as bv64;
      if Is64Bit(bars[index]) && index + 1 < 6 then low | ((bars[index + 1] as bv64) << 32) else low
  }

  /** A 64-bit base, aligned to 16 and split over two registers with any type bits, comes back
      whole in every register but the last. */
  lemma BarAddress64(bars: seq<bv32>, index: int, base: bv64, flags: bv32)
    requires |bars| == 6 && 0 <= index < 5
    requires base & 0xF == 0 && flags & !0xF == 0 && flags & 1 == 0 && flags & 4 != 0
    requires bars[index] == ((base & 0xFFFF_FFFF) as bv32) | flags
    requires bars[index + 1] == (base >> 32) as bv32
    ensures BarAddress(bars, index) == base
  {
    SplitBase(base, flags);
  }

  /** A 32-bit memory base, aligned to 16, with any type bits but the 64-bit one. */
  lemma BarAddress32(bars: seq<bv32>, index: int, base: bv32, flags: bv32)
    requires |bars| == 6 && 0 <= index < 6 && base != 0
    requires base & 0xF == 0 && flags & !0xF == 0 && flags & 1 == 0 && flags & 4 == 0
    requires bars[index] == base | flags
    ensures BarAddress(bars, index) == base as bv64
  {
    PlainBase(base, flags);
  }

  /** A port base, aligned to 4, with the I/O bit and the reserved one. */
  lemma BarAddressIo(bars: seq<bv32>, index: int, base: bv32, flags: bv32)
    requires |bars| == 6 && 0 <= index < 6
    requires base & 3 == 0 && flags & !3 == 0 && flags & 1 == 1
    requires bars[index] == base | flags
    ensures BarAddress(bars, index) == base as bv64
  {
    assert (base | flags) & !3 == base && (base | flags) & 1 != 0 && base | flags != 0;
  }

  /** No such register, or nothing in it. */
  lemma BarAddressNone(bars: seq<bv32>, index: int)
    requires |bars| == 6
    ensures index < 0 || index >= 6 || bars[index] == 0 ==> BarAddress(bars, index) == 0
  {
  }

  lemma PlainBase(base: bv32, flags: bv32)
    requires base != 0 && base & 0xF == 0 && flags & !0xF == 0 && flags & 1 == 0 && flags & 4 == 0
    ensures var low := base | flags;
            low & !0xF == base && !IsIo(low) && !Is64Bit(low) && low != 0
  {
  }

  lemma SplitBase(base: bv64, flags: bv32)
    requires base & 0xF == 0 && flags & !0xF == 0 && flags & 1 == 0 && flags & 4 != 0
    ensures var low := ((base & 0xFFFF_FFFF) as bv32) | flags;
            && low != 0 && !IsIo(low) && Is64Bit(low)
            && ((low & !0xF) as bv64) | (((base >> 32) as bv32 as bv64) << 32) == base
  {
  }
}
