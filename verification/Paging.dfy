/** The page tables of boot/bootloader.asm, and what a 4-level walk makes of them (section 4.5 of
    the Intel SDM, Volume 3A). Physical memory is an array of dwords from address 0. */
module Paging {
  import opened Bytes

  const PML4_ADDR: nat := 0x1000
  const PDPT_ADDR: nat := 0x2000
  const PD_ADDR: nat := 0x3000

  /** Where an address leads, and whether it may be written. */
  datatype Mapping = Mapping(physical: nat, writable: bool)

  function DwordAt(mem: seq<u32>, a: nat): u32 { if a / 4 < |mem| then mem[a / 4] else 0 }

  /** Entry `index` of the table at `table`. */
  function EntryAt(mem: seq<u32>, table: nat, index: nat): nat {
    DwordAt(mem, table + 8 * index) + 0x1_0000_0000 * DwordAt(mem, table + 8 * index + 4)
  }

  predicate IsPresent(e: nat) { e % 2 == 1 }

  predicate IsWritable(e: nat) { e / 2 % 2 == 1 }

  predicate IsLarge(e: nat) { e / 0x80 % 2 == 1 }

  /** Bits 51:low of an entry, in place. */
  function Frame(e: nat, page: nat): nat
    requires page > 0
  {
    e % 0x10_0000_0000_0000 / page * page
  }

  function Level(va: nat, span: nat): nat
    requires span > 0
  {
    va / span % 512
  }

  const SPAN_4: nat := 0x80_0000_0000
  const SPAN_3: nat := 0x4000_0000
  const SPAN_2: nat := 0x20_0000
  const SPAN_1: nat := 0x1000

  function Walk(mem: seq<u32>, cr3: nat, va: nat): Option<Mapping> {
    var e4 := EntryAt(mem, cr3, Level(va, SPAN_4));
    if !IsPresent(e4) then None
    else
      var e3 := EntryAt(mem, Frame(e4, SPAN_1), Level(va, SPAN_3));
      if !IsPresent(e3) then None
      else if IsLarge(e3) then Some(Mapping(Frame(e3, SPAN_3) + va % SPAN_3, IsWritable(e4) && IsWritable(e3)))
      else
        var e2 := EntryAt(mem, Frame(e3, SPAN_1), Level(va, SPAN_2));
        if !IsPresent(e2) then None
        else if IsLarge(e2) then
          Some(Mapping(Frame(e2, SPAN_2) + va % SPAN_2, IsWritable(e4) && IsWritable(e3) && IsWritable(e2)))
        else
          var e1 := EntryAt(mem, Frame(e2, SPAN_1), Level(va, SPAN_1));
          if !IsPresent(e1) then None
          else
            Some(Mapping(Frame(e1, SPAN_1) + va % SPAN_1,
                         IsWritable(e4) && IsWritable(e3) && IsWritable(e2) && IsWritable(e1)))
  }

  /** What dword i of the three tables is meant to be. */
  function TableDword(i: nat): u32 {
    if i == PML4_ADDR / 4 then PDPT_ADDR + 3
    else if i == PDPT_ADDR / 4 then PD_ADDR + 3
    else if i == PD_ADDR / 4 then 0x83
    else 0
  }

  ghost predicate TablesBuilt(mem: seq<u32>) {
    |mem| >= 0x1000 && forall i :: 0x400 <= i < 0x1000 ==> mem[i] == TableDword(i)
  }

  /** The zeroing loop and the six stores, over whatever memory held; nothing else is written. */
  method SetUpTables(mem: array<u32>)
    requires mem.Length >= 0x1000
    modifies mem
    ensures TablesBuilt(mem[..])
    ensures forall i :: 0 <= i < 0x400 || 0x1000 <= i < mem.Length ==> mem[i] == old(mem[i])
  {
    var edi, ecx := PML4_ADDR, 4096 * 3 / 4;
    while ecx > 0
      invariant 0 <= ecx <= 0xC00 && edi == PML4_ADDR + 4 * (0xC00 - ecx)
      invariant forall i :: 0x400 <= i < edi / 4 ==> mem[i] == 0
      invariant forall i :: 0 <= i < 0x400 || 0x1000 <= i < mem.Length ==> mem[i] == old(mem[i])
    {
      mem[edi / 4] := 0;
      edi, ecx := edi + 4, ecx - 1;
    }
    mem[PML4_ADDR / 4] := PDPT_ADDR + 3;
    mem[(PML4_ADDR + 4) / 4] := 0;
    mem[PDPT_ADDR / 4] := PD_ADDR + 3;
    mem[(PDPT_ADDR + 4) / 4] := 0;
    mem[PD_ADDR / 4] := 0x83;
    mem[(PD_ADDR + 4) / 4] := 0;
  }

  /** A table of ours has one entry, the first. */
  lemma TableEntries(mem: seq<u32>, table: nat, index: nat)
    requires TablesBuilt(mem) && index < 512
    requires table == PML4_ADDR || table == PDPT_ADDR || table == PD_ADDR
    ensures EntryAt(mem, table, index) == if index == 0 then TableDword(table / 4) else 0
  {
    var i := (table + 8 * index) / 4;
    assert i == table / 4 + 2 * index && (table + 8 * index + 4) / 4 == i + 1;
  }

  lemma LevelsZero(va: nat)
    requires va < 0x1_0000_0000_0000
    ensures Level(va, SPAN_4) == 0 && Level(va, SPAN_3) == 0 && Level(va, SPAN_2) == 0 <==> va < SPAN_2
  {
    var a := va / SPAN_2;
    var b := a / 512;
    assert va / SPAN_3 == b && va / SPAN_4 == b / 512;
    if Level(va, SPAN_4) == 0 && Level(va, SPAN_3) == 0 && Level(va, SPAN_2) == 0 {
      assert b / 512 == 0 && b == 0 && a == 0;
    }
  }

  lemma EntryValues()
    ensures IsPresent(0x2003) && IsWritable(0x2003) && !IsLarge(0x2003) && Frame(0x2003, SPAN_1) == PDPT_ADDR
    ensures IsPresent(0x3003) && IsWritable(0x3003) && !IsLarge(0x3003) && Frame(0x3003, SPAN_1) == PD_ADDR
    ensures IsPresent(0x83) && IsWritable(0x83) && IsLarge(0x83) && Frame(0x83, SPAN_2) == 0
    ensures !IsPresent(0)
  {
  }

  /** Exactly the first 2 MiB are mapped, each address to itself, present and writable. */
  lemma IdentityMap(mem: seq<u32>, va: nat)
    requires TablesBuilt(mem) && va < 0x1_0000_0000_0000
    ensures Walk(mem, PML4_ADDR, va) == if va < 0x20_0000 then Some(Mapping(va, true)) else None
  {
    EntryValues();
    LevelsZero(va);
    TableEntries(mem, PML4_ADDR, Level(va, SPAN_4));
    TableEntries(mem, PDPT_ADDR, Level(va, SPAN_3));
    TableEntries(mem, PD_ADDR, Level(va, SPAN_2));
  }
}
