/** The bump allocator of kernel/ahci.c and the three allocations made for every port. */
module AhciAlloc {
  import opened Bytes
  import opened Bits

  const FIRST_FREE: u64 := 0x100_0000
  const CMD_LIST_SIZE: nat := 1024
  const FIS_SIZE: nat := 256
  const CMD_TABLE_SIZE: nat := 4096
  // sizeof(ahci_received_fis_t): four 256-byte areas, 64 bytes and 96 reserved bytes
  const RECEIVED_FIS_VIEW: nat := 4 * 256 + 64 + 96

  ghost predicate IsPow2(a: nat) {
    exists k: nat :: k <= 63 && a == Pow2(k)
  }

  /** A sum of two 64-bit words, in 64 bits. */
  function Wrap64(v: nat): u64
    requires v < 2 * TWO_64
  {
    if v < TWO_64 then v else v - TWO_64
  }

  /** (next + align - 1) & ~(align - 1) on 64-bit words. */
  function Place(next: u64, align: u64): (p: u64)
    requires align > 0
  {
    BitAnd(Wrap64(next + align - 1), TWO_64 - align)
  }

  /** The pointer returned is the least multiple of `align` that is not below `next`, and
      it is that exactly when rounding up does not wrap around; otherwise it is null. */
  lemma PlaceExact(next: u64, align: u64)
    requires IsPow2(align)
    ensures align > 0 && Place(next, align) % align == 0
    ensures next + align - 1 < TWO_64 ==> next <= Place(next, align) < next + align
    ensures next + align - 1 >= TWO_64 ==> Place(next, align) == 0
  {
    var k: nat :| k <= 63 && align == Pow2(k);
    var x := Wrap64(next + align - 1);
    PlaceMasks(x, k, align);
    RoundedDown(x, align);
  }

  /** Such a wrap: the last address, rounded up to a page. */
  lemma PlaceExample()
    ensures Place(TWO_64 - 1, 0x1000) == 0
  {
    Pow2Values();
    assert IsPow2(0x1000);
    PlaceExact(TWO_64 - 1, 0x1000);
  }

  lemma PlaceMasks(x: u64, k: nat, a: u64)
    requires k <= 63 && a == Pow2(k)
    ensures a > 0 && BitAnd(x, TWO_64 - a) == x - Rest(x, a)
  {
    WordSize(k);
    MaskRoundsDownTo(x, k, 64, a, TWO_64);
  }

  lemma WordSize(k: nat)
    requires k <= 63
    ensures TWO_64 == Pow2(64) && Pow2(k) < TWO_64
  {
    Pow2Values();
    Pow2Monotone(k, 63);
  }

  lemma RoundedDown(x: nat, a: nat)
    requires a > 0
    ensures 0 <= Rest(x, a) < a && Rest(x, a) <= x && (x - Rest(x, a)) % a == 0
    ensures x < a ==> Rest(x, a) == x
  {
    assert x == a * (x / a) + x % a;
    QuotientUnique(x - x % a, a, x / a, 0);
    if x < a { QuotientUnique(x, a, 0, x); }
  }

  /** A multiple of the alignment less than one alignment above `next` is where it lands. */
  lemma PlaceIs(next: u64, align: u64, target: u64)
    requires IsPow2(align) && align > 0
    requires target % align == 0 && next <= target < next + align
    requires next + align - 1 < TWO_64
    ensures Place(next, align) == target
  {
    PlaceExact(next, align);
    MultipleUnique(align, Place(next, align), target, next);
  }

  datatype Request = Request(size: u64, align: u64)

  datatype Region = Region(start: nat, size: nat) {
    function End(): nat { start + size }
  }

  /** A request that wraps neither when rounding up nor when the pointer is advanced. */
  ghost predicate Fits(next: u64, r: Request) {
    && IsPow2(r.align)
    && next + r.align - 1 < TWO_64
    && Place(next, r.align) + r.size < TWO_64
  }

  ghost predicate AllFit(next: u64, rs: seq<Request>)
    decreases |rs|
  {
    rs == [] || (Fits(next, rs[0]) && AllFit(Place(next, rs[0].align) + rs[0].size, rs[1..]))
  }

  ghost function Regions(next: u64, rs: seq<Request>): (out: seq<Region>)
    requires AllFit(next, rs)
    ensures |out| == |rs|
    decreases |rs|
  {
    if rs == [] then []
    else
      var p := Place(next, rs[0].align);
      [Region(p, rs[0].size)] + Regions(p + rs[0].size, rs[1..])
  }

  /** Any run of allocations yields aligned regions of the requested sizes, in increasing
      order, each ending at or before the start of every later one. */
  lemma {:induction false} RegionsDisjoint(next: u64, rs: seq<Request>)
    requires AllFit(next, rs)
    ensures forall i :: 0 <= i < |rs| ==>
              var r := Regions(next, rs)[i];
              rs[i].align > 0 && next <= r.start && r.start % rs[i].align == 0
               && r.size == rs[i].size && r.End() < TWO_64
    ensures forall i, j :: 0 <= i < j < |rs| ==> Regions(next, rs)[i].End() <= Regions(next, rs)[j].start
    decreases |rs|
  {
    if rs != [] {
      PlaceExact(next, rs[0].align);
      var after := Place(next, rs[0].align) + rs[0].size;
      RegionsDisjoint(after, rs[1..]);
      var rest := Regions(after, rs[1..]);
      assert Regions(next, rs) == [Region(Place(next, rs[0].align), rs[0].size)] + rest;
      forall i | 1 <= i < |rs| ensures Regions(next, rs)[i] == rest[i - 1] && rs[i] == rs[1..][i - 1] {}
    }
  }

  datatype Port = Port(cmdList: nat, fis: nat, cmdTable: nat)

  /** The three structures of one port lie in its own 8 KiB, in order, and the received-FIS
      structure the driver overlays on the 256-byte area stops short of the command table. */
  ghost predicate PortLaidOut(p: Port, n: nat) {
    && p.cmdList == FIRST_FREE + 8192 * n
    && p.cmdList + CMD_LIST_SIZE <= p.fis
    && p.fis + FIS_SIZE <= p.cmdTable
    && p.fis + RECEIVED_FIS_VIEW <= p.cmdTable
    && p.cmdTable + CMD_TABLE_SIZE == FIRST_FREE + 8192 * (n + 1)
    && p.cmdList % 1024 == 0 && p.fis % 256 == 0 && p.cmdTable % 4096 == 0
  }

  lemma PortPlaces(base: u64, q: nat)
    requires base == 8192 * q && base < 0x200_0000
    ensures Place(base, 1024) == base
    ensures Place(base + 1024, 256) == base + 1024
    ensures Place(base + 1280, 4096) == base + 4096
  {
    assert IsPow2(1024) && IsPow2(256) && IsPow2(4096) by { Pow2Values(); }
    QuotientUnique(base, 1024, 8 * q, 0);
    QuotientUnique(base + 1024, 256, 32 * q + 4, 0);
    QuotientUnique(base + 4096, 4096, 2 * q + 1, 0);
    hide *;
    PlaceIs(base, 1024, base);
    PlaceIs(base + 1024, 256, base + 1024);
    PlaceIs(base + 1280, 4096, base + 4096);
  }

  const SIG_ATA: bv32 := 0x0000_0101
  const SIG_ATAPI: bv32 := 0xEB14_0101

  /** The port is implemented, and its signature is that of a disk. */
  predicate HasDisk(portsImpl: bv32, sig: seq<bv32>, i: nat)
    requires i < |sig| <= 32
  {
    portsImpl & (1 << i) != 0 && (sig[i] == SIG_ATA || sig[i] == SIG_ATAPI)
  }

  /** The numbers in s below i. */
  ghost function Below(s: set<nat>, i: nat): set<nat> { set j <- s | j < i }

  lemma BelowAll(s: set<nat>, i: nat)
    requires forall j :: j in s ==> j < i
    ensures Below(s, i) == s && |s + {i}| == |s| + 1
    ensures forall j: nat :: j <= i ==> Below(s + {i}, j) == Below(s, j)
  {
  }

  /** The k-th of these ports, in the order of their numbers, has the k-th block. */
  ghost predicate InOrder(ports: map<nat, Port>) {
    forall i: nat :: i in ports ==> PortLaidOut(ports[i], |Below(ports.Keys, i)|)
  }

  lemma NoPorts()
    ensures InOrder(map[])
  {
  }

  lemma OneMorePort(ports: map<nat, Port>, i: nat, p: Port)
    requires InOrder(ports) && PortLaidOut(p, |ports|) && forall j :: j in ports ==> j < i
    ensures InOrder(ports[i := p]) && |ports[i := p]| == |ports| + 1
  {
    hide PortLaidOut;
    var keys := ports.Keys;
    BelowAll(keys, i);
    assert ports[i := p].Keys == keys + {i};
    hide Below;
  }

  class Allocator {
    var next: u64

    constructor ()
      ensures next == FIRST_FREE
    {
      next := FIRST_FREE;
    }

    method Alloc(size: u64, align: u64) returns (ptr: u64)
      requires align > 0
      modifies this
      ensures ptr == Place(old(next), align)
      ensures next == Wrap64(ptr + size)
    {
      ptr := Place(next, align);
      next := Wrap64(ptr + size);
    }

    method AllocPort(ghost n: nat) returns (p: Port)
      requires next == FIRST_FREE + 8192 * n && n < 32
      modifies this
      ensures PortLaidOut(p, n)
      ensures next == FIRST_FREE + 8192 * (n + 1)
    {
      hide Place;
      PortPlaces(FIRST_FREE + 8192 * n, 2048 + n);
      var cl := Alloc(CMD_LIST_SIZE, 1024);
      var fis := Alloc(FIS_SIZE, 256);
      var ct := Alloc(CMD_TABLE_SIZE, 4096);
      p := Port(cl, fis, ct);
    }

    /** The loop over the 32 ports: exactly the implemented ports with a disk get an 8 KiB block
        each, one after the other in the order of their numbers. */
    method DetectPorts(portsImpl: bv32, sig: seq<bv32>) returns (ports: map<nat, Port>)
      requires |sig| == 32 && next == FIRST_FREE
      modifies this
      ensures forall i: nat :: i in ports <==> i < 32 && HasDisk(portsImpl, sig, i)
      ensures InOrder(ports) && next == FIRST_FREE + 8192 * |ports|
    {
      hide *;
      ports := map[];
      NoPorts();
      for i := 0 to 32
        invariant |ports| <= i && InOrder(ports) && next == FIRST_FREE + 8192 * |ports|
        invariant forall j: nat :: j in ports <==> j < i && HasDisk(portsImpl, sig, j)
      {
        if HasDisk(portsImpl, sig, i) {
          var p := AllocPort(|ports|);
          OneMorePort(ports, i, p);
          ports := ports[i := p];
        }
      }
    }
  }
}
