/** The CHS fallback of boot/stage2.asm: the LBA conversion and the kernel read loop, in 16-bit
    registers, with the BIOS as a source of requests that may fail. */
module ChsLoader {
  import opened Bytes

  const KERNEL_LBA_START: nat := 18
  const MAX_CHS_READ: nat := 16
  const KERNEL_SEG: word := 0xFFFF
  const KERNEL_OFF: word := 0x0010
  const KERNEL_ADDRESS: nat := 0x10_0000

  datatype Chs = Chs(cyl: word, head: byte, sec: byte)

  /** What the BIOS takes a triple to mean. */
  function ToLba(c: Chs, spt: nat, heads: nat): int { (c.cyl * heads + c.head) * spt + (c.sec - 1) }

  /** lba2chs: two 16-bit divisions of DX:AX with DX cleared, so only the low word is divided. */
  method Lba2Chs(lba: u32, spt: nat, heads: nat) returns (c: Chs)
    requires 1 <= spt <= 63 && 1 <= heads <= 256
    ensures c == ChsOf(lba, spt, heads)
    ensures 1 <= c.sec <= spt && c.head < heads && ToLba(c, spt, heads) == lba % 0x1_0000
  {
    ChsExact(lba, spt, heads);
    DivisionBounds(lba % 0x1_0000, spt, heads);
    hide ToLba;
    var ax, dx := lba % 0x1_0000, 0;
    ax, dx := ax / spt, ax % spt;
    dx := dx + 1;
    var sec: byte := dx;
    ax, dx := ax / heads, ax % heads;
    c := Chs(ax, dx, sec);
  }

  lemma DivisionBounds(a: nat, spt: nat, heads: nat)
    requires a < 0x1_0000 && 1 <= spt && 1 <= heads
    ensures 0 <= a % spt < spt && 0 <= a / spt <= a
    ensures 0 <= a / spt % heads < heads && 0 <= a / spt / heads <= a / spt
  {
    QuotientBound(a, spt);
    QuotientBound(a / spt, heads);
  }

  lemma QuotientBound(a: nat, m: nat)
    requires m >= 1
    ensures 0 <= a / m <= a && 0 <= a % m < m && a == m * (a / m) + a % m
  {
    AtLeast(m, a / m);
  }

  lemma AtLeast(m: nat, q: int)
    requires m >= 1
    ensures q >= 0 ==> m * q >= q
  {
  }

  function ChsOf(lba: u32, spt: nat, heads: nat): Chs
    requires 1 <= spt <= 63 && 1 <= heads <= 256
  {
    DivisionBounds(lba % 0x1_0000, spt, heads);
    var a := lba % 0x1_0000;
    Chs(a / spt / heads, a / spt % heads, a % spt + 1)
  }

  lemma DivideTwice(a: nat, m: nat, n: nat)
    requires m >= 1 && n >= 1
    ensures (a / m / n * n + a / m % n) * m + a % m == a
  {
    QuotientBound(a, m);
    QuotientBound(a / m, n);
    var q := a / m;
    assert q / n * n + q % n == q;
  }

  /** The triple is in range and names the block exactly when it fits 16 bits. */
  lemma ChsExact(lba: u32, spt: nat, heads: nat)
    requires 1 <= spt <= 63 && 1 <= heads <= 256
    ensures var c := ChsOf(lba, spt, heads);
            && 1 <= c.sec <= spt && c.head < heads
            && ToLba(c, spt, heads) == lba % 0x1_0000
            && (ToLba(c, spt, heads) == lba <==> lba < 0x1_0000)
  {
    var a := lba % 0x1_0000;
    DivisionBounds(a, spt, heads);
    assert ChsOf(lba, spt, heads) == Chs(a / spt / heads, a / spt % heads, a % spt + 1);
    DivideTwice(a, spt, heads);
  }

  lemma ChsInjective(p: u32, q: u32, spt: nat, heads: nat)
    requires 1 <= spt <= 63 && 1 <= heads <= 256
    requires p < 0x1_0000 && q < 0x1_0000 && ChsOf(p, spt, heads) == ChsOf(q, spt, heads)
    ensures p == q
  {
    ChsExact(p, spt, heads);
    ChsExact(q, spt, heads);
  }

  // The read loop

  /** The memory variables of the loop. */
  datatype Loader = Loader(lba: u32, left: word, seg: word, off: word)

  /** One INT 13h call: cylinder byte, head and sector registers, count, and ES:BX. */
  datatype Call = Call(cylinder: byte, head: byte, sector: byte, count: byte, seg: word, off: word) {
    function FirstLba(spt: nat, heads: nat): int { ToLba(Chs(cylinder, head, sector), spt, heads) }

    /** Where byte i of the transfer goes: the offset stays within the segment. */
    function Destination(i: nat): nat { 16 * seg + (off + i) % 0x1_0000 }
  }

  /** The debug output between reading `chs_left` into AX and comparing it leaves AH = 0Eh and
      AL = 'I', so the comparison does not see the count of sectors left. */
  const AX_AFTER_DEBUG: word := 0x0E49

  function Signed(x: word): int { if x < 0x8000 then x else x - 0x1_0000 }

  /** 16 blocks, or what AX holds when that is less as a signed word. */
  function Chunk(ax: word): word { if Signed(ax) >= MAX_CHS_READ then MAX_CHS_READ else ax }

  function ChunkSize(): word { Chunk(AX_AFTER_DEBUG) }

  function Start(sectors: word): Loader { Loader(KERNEL_LBA_START, sectors, KERNEL_SEG, KERNEL_OFF) }

  /** The variables after a successful call: word-sized additions and subtraction, and the segment
      moved when the offset carries. */
  function Advance(s: Loader): Loader {
    var n := ChunkSize();
    var low := (s.lba % 0x1_0000 + n) % 0x1_0000;
    var off := s.off + n * 512;
    Loader(s.lba / 0x1_0000 * 0x1_0000 + low,
           (s.left - n) % 0x1_0000,
           if off < 0x1_0000 then s.seg else (s.seg + 0x1000) % 0x1_0000,
           off % 0x1_0000)
  }

  function After(sectors: word, calls: nat): Loader {
    if calls == 0 then Start(sectors) else Advance(After(sectors, calls - 1))
  }

  function CallOf(s: Loader, spt: nat, heads: nat): Call
    requires 1 <= spt <= 63 && 1 <= heads <= 256
  {
    var c := ChsOf(s.lba, spt, heads);
    Call(c.cyl % 0x100, c.head, c.sec, ChunkSize(), s.seg, s.off)
  }

  datatype Status = Loaded | Failed | Running

  method SetRegisters(s: Loader, cx: word, spt: nat, heads: nat) returns (call: Call)
    requires 1 <= spt <= 63 && 1 <= heads <= 256 && cx == ChunkSize()
    ensures call == CallOf(s, spt, heads)
  {
    hide ChsOf;
    var c := Lba2Chs(s.lba, spt, heads);
    call := Call(c.cyl % 0x100, c.head, c.sec, cx, s.seg, s.off);
  }

  /** The loop as far as `carry` tells the outcome of its BIOS calls. */
  method ReadChs(sectors: word, spt: nat, heads: nat, carry: seq<bool>) returns (status: Status, calls: seq<Call>)
    requires 1 <= spt <= 63 && 1 <= heads <= 256
    ensures |calls| <= |carry|
    ensures forall i :: 0 <= i < |calls| ==> calls[i] == CallOf(After(sectors, i), spt, heads)
    ensures forall i :: 0 <= i < |calls| ==> After(sectors, i).left != 0
    ensures status == Loaded ==> After(sectors, |calls|).left == 0 && true !in carry[..|calls|]
    ensures status == Failed ==> |calls| > 0 && carry[|calls| - 1] && true !in carry[..|calls| - 1]
    ensures status == Running ==> |calls| == |carry| && true !in carry && After(sectors, |calls|).left != 0
    ensures true !in carry && |carry| >= sectors / 16 ==> LoadsIfMultiple(sectors, spt, heads, status, calls)
  {
    hide Advance, CallOf, LoadsIfMultiple;
    var s := Start(sectors);
    calls := [];
    while true
      invariant |calls| <= |carry| && s == After(sectors, |calls|)
      invariant true !in carry[..|calls|]
      invariant forall i :: 0 <= i < |calls| ==> calls[i] == CallOf(After(sectors, i), spt, heads)
      invariant forall i :: 0 <= i < |calls| ==> After(sectors, i).left != 0
      decreases |carry| - |calls|
    {
      var ax := s.left;
      if ax == 0 {
        if |carry| >= sectors / 16 { EndsWell(sectors, spt, heads, |carry|, Loaded, calls); }
        return Loaded, calls;
      }
      ax := AX_AFTER_DEBUG;
      var cx := Chunk(ax);
      if |calls| == |carry| {
        assert carry[..|calls|] == carry;
        if |carry| >= sectors / 16 { EndsWell(sectors, spt, heads, |carry|, Running, calls); }
        return Running, calls;
      }
      var call := SetRegisters(s, cx, spt, heads);
      var failed := carry[|calls|];
      assert carry[..|calls| + 1] == carry[..|calls|] + [failed];
      calls := calls + [call];
      if failed { return Failed, calls; }
      s := Advance(s);
    }
  }

  lemma {:induction false} LeftAfter(sectors: word, n: nat)
    ensures After(sectors, n).left == (sectors - 16 * n) % 0x1_0000
  {
    if n > 0 {
      LeftAfter(sectors, n - 1);
      var before := After(sectors, n - 1);
      assert ChunkSize() == 16 && Advance(before).left == (before.left - 16) % 0x1_0000;
      SubtractMod(sectors - 16 * (n - 1));
    }
  }

  lemma SubtractMod(x: int)
    ensures (x % 0x1_0000 - 16) % 0x1_0000 == (x - 16) % 0x1_0000
  {
  }

  lemma MultipleOf65536(x: int, n: int)
    requires (x - 16 * n) % 0x1_0000 == 0
    ensures x % 16 == 0 && (n - x / 16) % 4096 == 0
  {
    var k := (x - 16 * n) / 0x1_0000;
    assert x == 16 * (n + 4096 * k);
    assert n - x / 16 == 4096 * (-k);
  }

  lemma MultipleOf4096(x: int, n: int)
    requires x % 16 == 0 && (n - x / 16) % 4096 == 0
    ensures (x - 16 * n) % 0x1_0000 == 0
  {
    var k := (n - x / 16) / 4096;
    assert x - 16 * n == 0x1_0000 * (-k);
  }

  /** The loop can only end after exactly sectors / 16 calls, or 4096 more for every time round,
      and only when the count is a multiple of 16; otherwise it never ends by itself. */
  lemma EndsExactly(sectors: word, n: nat)
    ensures After(sectors, n).left == 0 <==> sectors % 16 == 0 && (n - sectors / 16) % 4096 == 0
  {
    LeftAfter(sectors, n);
    if After(sectors, n).left == 0 {
      MultipleOf65536(sectors, n);
    } else if sectors % 16 == 0 && (n - sectors / 16) % 4096 == 0 {
      MultipleOf4096(sectors, n);
    }
  }

  /** Adding a chunk, with the carry into the segment. */
  lemma AdvanceByEighth(s: Loader, e: nat)
    requires s.lba < 0x1_0000 && e < 8 && s.off == 16 + 8192 * e
    ensures Advance(s).lba == (s.lba + 16) % 0x1_0000
    ensures if e < 7 then Advance(s).off == 16 + 8192 * (e + 1) && Advance(s).seg == s.seg
            else Advance(s).off == 16 && Advance(s).seg == (s.seg + 0x1000) % 0x1_0000
  {
    assert ChunkSize() == 16;
  }

  lemma CountUp(n: nat)
    requires n > 0
    ensures if (n - 1) % 8 < 7 then n % 8 == (n - 1) % 8 + 1 && n / 8 == (n - 1) / 8
            else n % 8 == 0 && n / 8 == (n - 1) / 8 + 1
  {
  }

  lemma AddMod(x: int, d: int)
    ensures (x % 0x1_0000 + d) % 0x1_0000 == (x + d) % 0x1_0000
  {
  }

  lemma OneCallMore(sectors: word, n: nat)
    requires n > 0
    ensures After(sectors, n) == Advance(After(sectors, n - 1))
  {
    hide Advance;
  }

  /** The variables before any call: the block number wraps at 16 bits, and the segment moves by
      64 KiB with every eighth call. */
  lemma {:induction false} AfterIs(sectors: word, n: nat)
    ensures After(sectors, n) ==
            Loader((18 + 16 * n) % 0x1_0000, (sectors - 16 * n) % 0x1_0000,
                   (0xFFFF + 0x1000 * (n / 8)) % 0x1_0000, 16 + 8192 * (n % 8))
  {
    LeftAfter(sectors, n);
    if n > 0 {
      AfterIs(sectors, n - 1);
      OneCallMore(sectors, n);
      hide Advance, After;
      AdvanceByEighth(After(sectors, n - 1), (n - 1) % 8);
      CountUp(n);
      AddMod(18 + 16 * (n - 1), 16);
      AddMod(0xFFFF + 0x1000 * ((n - 1) / 8), 0x1000);
    }
  }

  lemma AdvanceEarly(s: Loader)
    requires s.lba + 16 < 0x1_0000 && s.off + 8192 < 0x1_0000
    ensures Advance(s) == Loader(s.lba + 16, (s.left - 16) % 0x1_0000, s.seg, s.off + 8192)
  {
    assert ChunkSize() == 16;
  }

  /** The variables while neither the block number nor the offset has wrapped. */
  lemma {:induction false} EarlyStates(sectors: word, n: nat)
    requires n <= 7
    ensures var s := After(sectors, n);
            s.lba == KERNEL_LBA_START + 16 * n && s.seg == KERNEL_SEG && s.off == KERNEL_OFF + 8192 * n
  {
    if n > 0 {
      EarlyStates(sectors, n - 1);
      AdvanceEarly(After(sectors, n - 1));
    }
  }

  /** A call that reads the n-th 16 blocks of the kernel to the n-th 8 KiB of its place. */
  ghost predicate LoadsChunk(c: Call, n: nat, spt: nat, heads: nat) {
    && c.count == 16
    && c.FirstLba(spt, heads) == KERNEL_LBA_START + 16 * n
    && forall i :: 0 <= i < 8192 ==> c.Destination(i) == KERNEL_ADDRESS + 8192 * n + i
  }

  lemma EarlyCallsLoad(sectors: word, n: nat, spt: nat, heads: nat)
    requires 1 <= spt <= 63 && 1 <= heads <= 256 && n < 7
    ensures LoadsChunk(CallOf(After(sectors, n), spt, heads), n, spt, heads)
  {
    EarlyStates(sectors, n);
    var s := After(sectors, n);
    EarlyTriple(s.lba, spt, heads);
    CallFields(s, spt, heads);
    hide ChsOf, After, CallOf, ToLba, Call.FirstLba, Call.Destination;
    var c := CallOf(s, spt, heads);
    forall i | 0 <= i < 8192 ensures c.Destination(i) == KERNEL_ADDRESS + 8192 * n + i {
      DestinationInSegment(c, i);
    }
  }

  lemma DestinationInSegment(c: Call, i: nat)
    requires c.off + i < 0x1_0000
    ensures c.Destination(i) == 16 * c.seg + c.off + i
  {
  }

  lemma CallFields(s: Loader, spt: nat, heads: nat)
    requires 1 <= spt <= 63 && 1 <= heads <= 256
    requires ChsOf(s.lba, spt, heads).cyl < 0x100
    ensures var c := CallOf(s, spt, heads);
            && c.count == 16 && c.seg == s.seg && c.off == s.off
            && c.FirstLba(spt, heads) == ToLba(ChsOf(s.lba, spt, heads), spt, heads)
  {
    hide ChsOf, ToLba;
  }

  /** The first blocks have one-byte cylinders, whatever the geometry. */
  lemma EarlyTriple(lba: u32, spt: nat, heads: nat)
    requires 1 <= spt <= 63 && 1 <= heads <= 256 && lba < 0x100
    ensures ChsOf(lba, spt, heads).cyl < 0x100 && ToLba(ChsOf(lba, spt, heads), spt, heads) == lba
  {
    ChsExact(lba, spt, heads);
    DivisionBounds(lba, spt, heads);
  }

  /** From the eighth call on the offset leaves the segment before the chunk is through. */
  lemma EighthCallWraps(sectors: word, spt: nat, heads: nat)
    requires 1 <= spt <= 63 && 1 <= heads <= 256
    ensures !LoadsChunk(CallOf(After(sectors, 7), spt, heads), 7, spt, heads)
  {
    hide ChsOf, After, ToLba;
    EarlyStates(sectors, 7);
    WrapsAround(CallOf(After(sectors, 7), spt, heads), spt, heads);
  }

  lemma WrapsAround(c: Call, spt: nat, heads: nat)
    requires c.seg == KERNEL_SEG && c.off == KERNEL_OFF + 8192 * 7
    ensures !LoadsChunk(c, 7, spt, heads)
  {
    assert c.Destination(8191) == 0xF_FFF0 + 15;
    hide ToLba, Call.FirstLba;
  }

  /** With every BIOS call succeeding, the kernel's blocks are requested once each, in order, into
      contiguous memory from 1 MiB, exactly when there are at most 112 of them (a multiple of 16,
      so that the loop ends). */
  lemma LoadsExactly(sectors: word, spt: nat, heads: nat)
    requires 1 <= spt <= 63 && 1 <= heads <= 256 && sectors % 16 == 0
    ensures After(sectors, sectors / 16).left == 0
    ensures forall n :: 0 <= n < sectors / 16 ==> After(sectors, n).left != 0
    ensures (forall n :: 0 <= n < sectors / 16 ==> LoadsChunk(CallOf(After(sectors, n), spt, heads), n, spt, heads))
            <==> sectors <= 112
  {
    EndsExactly(sectors, sectors / 16);
    hide CallOf, LoadsChunk, After;
    forall n | 0 <= n < sectors / 16 ensures After(sectors, n).left != 0 {
      NotYetDone(sectors, n);
    }
    ChunksLoaded(sectors, spt, heads);
  }

  lemma NotYetDone(sectors: word, n: nat)
    requires sectors % 16 == 0 && n < sectors / 16
    ensures After(sectors, n).left != 0
  {
    hide After;
    EndsExactly(sectors, n);
  }

  lemma ChunksLoaded(sectors: word, spt: nat, heads: nat)
    requires 1 <= spt <= 63 && 1 <= heads <= 256 && sectors % 16 == 0
    ensures (forall n :: 0 <= n < sectors / 16 ==> LoadsChunk(CallOf(After(sectors, n), spt, heads), n, spt, heads))
            <==> sectors <= 112
  {
    hide CallOf, LoadsChunk, After;
    if sectors <= 112 {
      forall n | 0 <= n < sectors / 16
        ensures LoadsChunk(CallOf(After(sectors, n), spt, heads), n, spt, heads)
      {
        EarlyCallsLoad(sectors, n, spt, heads);
      }
    } else {
      EighthCallWraps(sectors, spt, heads);
    }
  }

  /** What comes of a load without failing calls: it ends exactly for multiples of 16, after
      sectors / 16 calls, and then each call loads its chunk exactly when there are at most 112. */
  ghost predicate LoadsIfMultiple(sectors: word, spt: nat, heads: nat, status: Status, calls: seq<Call>) {
    && (status == Loaded <==> sectors % 16 == 0)
    && (status == Loaded ==>
          && |calls| == sectors / 16
          && ((forall i :: 0 <= i < |calls| ==> LoadsChunk(calls[i], i, spt, heads)) <==> sectors <= 112))
  }

  lemma EndsWell(sectors: word, spt: nat, heads: nat, limit: nat, status: Status, calls: seq<Call>)
    requires 1 <= spt <= 63 && 1 <= heads <= 256 && sectors / 16 <= limit
    requires forall i :: 0 <= i < |calls| ==> calls[i] == CallOf(After(sectors, i), spt, heads)
    requires forall i :: 0 <= i < |calls| ==> After(sectors, i).left != 0
    requires status == Loaded ==> After(sectors, |calls|).left == 0
    requires status != Loaded ==> status == Running && |calls| == limit && After(sectors, |calls|).left != 0
    ensures LoadsIfMultiple(sectors, spt, heads, status, calls)
  {
    hide CallOf, LoadsChunk, After;
    EndsExactly(sectors, |calls|);
    if sectors % 16 == 0 {
      var n := sectors / 16;
      EndsExactly(sectors, n);
      if |calls| < n { NotYetDone(sectors, |calls|); }
      assert |calls| == n;
      if sectors <= 112 {
        forall i | 0 <= i < n ensures LoadsChunk(calls[i], i, spt, heads) {
          EarlyCallsLoad(sectors, i, spt, heads);
        }
      } else {
        EighthCallWraps(sectors, spt, heads);
        assert calls[7] == CallOf(After(sectors, 7), spt, heads);
      }
    }
  }
}
