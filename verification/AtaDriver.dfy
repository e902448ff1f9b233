/** The PIO driver of kernel/ata.c against that channel, and what it makes of the disk. */
module AtaDriver {
  import opened Bytes
  import opened Bits
  import opened AtaDrive

  // The address on the wires

  /** Byte k of an address. */
  function ByteOf(lba: nat, k: nat): byte
    requires k <= 7
  {
    match k
    case 0 => lba % 0x100
    case 1 => lba / 0x100 % 0x100
    case 2 => lba / 0x1_0000 % 0x100
    case 3 => lba / 0x100_0000 % 0x100
    case 4 => lba / 0x1_0000_0000 % 0x100
    case 5 => lba / 0x100_0000_0000 % 0x100
    case 6 => lba / 0x1_0000_0000_0000 % 0x100
    case 7 => lba / 0x100_0000_0000_0000 % 0x100
  }

  /** The unit, LBA mode, and bits 27:24 of the address. */
  function DeviceByte(isMaster: bool, lba: nat): byte {
    (if isMaster then 0xE0 else 0xF0) + ByteOf(lba, 3) % 16
  }

  function Selected(tf: TaskFile, isMaster: bool, lba: nat, lba48: bool): TaskFile {
    var t := if lba48 then
               tf.Put(FEATURES, 0).Put(SECCOUNT, 0)
               .Put(LBA_HIGH, ByteOf(lba, 3)).Put(LBA_MID, ByteOf(lba, 4)).Put(LBA_LOW, ByteOf(lba, 5))
             else tf;
    t.Put(DEVICE, DeviceByte(isMaster, lba))
  }

  /** The task file when the command register is written. */
  function Addressed(tf: TaskFile, lba: nat, lba48: bool): TaskFile {
    var t := Selected(tf, false, lba, lba48);
    var u := if lba48 then t.Put(FEATURES, 0) else t;
    u.Put(SECCOUNT, 1).Put(LBA_LOW, ByteOf(lba, 0)).Put(LBA_MID, ByteOf(lba, 1)).Put(LBA_HIGH, ByteOf(lba, 2))
  }

  /** The sector the drive is really asked for. The 28-bit path drops the higher bits; the
      48-bit path exchanges bits 31:24 with bits 47:40 and drops what is above. */
  function Hit(lba: nat, lba48: bool): nat {
    if !lba48 then lba % 0x1000_0000
    else ByteOf(lba, 0) + 0x100 * ByteOf(lba, 1) + 0x1_0000 * ByteOf(lba, 2)
         + 0x100_0000 * ByteOf(lba, 5) + 0x1_0000_0000 * ByteOf(lba, 4) + 0x100_0000_0000 * ByteOf(lba, 3)
  }

  lemma BytesOf(lba: u64)
    ensures lba == ByteOf(lba, 0) + 0x100 * ByteOf(lba, 1) + 0x1_0000 * ByteOf(lba, 2)
                   + 0x100_0000 * ByteOf(lba, 3) + 0x1_0000_0000 * ByteOf(lba, 4)
                   + 0x100_0000_0000 * ByteOf(lba, 5) + 0x1_0000_0000_0000 * (lba / 0x1_0000_0000_0000)
  {
    var a := lba / 0x100;
    var b := a / 0x100;
    var c := b / 0x100;
    var d := c / 0x100;
    var e := d / 0x100;
    assert b == lba / 0x1_0000;
    assert c == lba / 0x100_0000;
    assert d == lba / 0x1_0000_0000;
    assert e == lba / 0x100_0000_0000;
    assert e / 0x100 == lba / 0x1_0000_0000_0000;
  }

  lemma DeviceNibble(n: nat)
    requires n < 16
    ensures (0xF0 + n) / 16 % 2 == 1 && (0xF0 + n) / 64 % 2 == 1 && (0xF0 + n) % 16 == n
    ensures (0xF0 + n) / 128 == 1 && (0xF0 + n) / 32 % 2 == 1
    ensures (0xE0 + n) / 16 % 2 == 0
  {
  }

  lemma Low28(lba: nat)
    ensures lba % 0x1000_0000 == ByteOf(lba, 0) + 0x100 * ByteOf(lba, 1) + 0x1_0000 * ByteOf(lba, 2)
                                 + 0x100_0000 * (ByteOf(lba, 3) % 16)
  {
    var a, b, c := lba / 0x100, lba / 0x1_0000, lba / 0x100_0000;
    var d := c / 16;
    assert b == a / 0x100 && c == b / 0x100;
    var low := lba % 0x100 + 0x100 * (a % 0x100) + 0x1_0000 * (b % 0x100) + 0x100_0000 * (c % 16);
    assert lba == 0x1000_0000 * d + low && 0 <= low < 0x1000_0000;
    QuotientUnique(lba, 0x1000_0000, d, low);
    ModOfMod(c);
  }

  lemma ModOfMod(c: nat)
    ensures c % 0x100 % 16 == c % 16
  {
    var q := c / 0x100;
    assert c == 16 * (16 * q + c % 0x100 / 16) + c % 0x100 % 16;
    QuotientUnique(c, 16, 16 * q + c % 0x100 / 16, c % 0x100 % 16);
  }

  /** Whatever the registers held before, the drive decodes one sector, in LBA mode, on unit 1, with
      the two obsolete device bits set and, for a 48-bit command, no features. */
  lemma AddressedDecodes(tf: TaskFile, lba: u64, lba48: bool)
    ensures var t := Addressed(tf, lba, lba48);
            && t.Unit() == 1 && t.LbaMode() && t.device / 128 == 1 && t.device / 32 % 2 == 1
            && (lba48 ==> t.features == Reg(0, 0))
            && (if lba48 then t.Count48() == 1 && t.Lba48() == Hit(lba, true)
                else t.Count28() == 1 && t.Lba28() == Hit(lba, false))
  {
    var t := Addressed(tf, lba, lba48);
    var n := ByteOf(lba, 3) % 16;
    DeviceNibble(n);
    assert t.device == 0xF0 + n && t.count.cur == 1;
    assert t.low.cur == ByteOf(lba, 0) && t.mid.cur == ByteOf(lba, 1) && t.high.cur == ByteOf(lba, 2);
    if lba48 {
      assert t.count.prev == 0;
      assert t.low.prev == ByteOf(lba, 5) && t.mid.prev == ByteOf(lba, 4) && t.high.prev == ByteOf(lba, 3);
    } else {
      Low28(lba);
    }
  }

  /** The 28-bit path reaches the requested sector exactly below 2^28. */
  lemma Hit28Exact(lba: u64)
    ensures Hit(lba, false) == lba <==> lba < 0x1000_0000
  {
  }

  /** The 48-bit path does exactly when the address fits and its bits 31:24 equal its bits 47:40. */
  lemma Hit48Exact(lba: u64)
    ensures Hit(lba, true) == lba <==> lba < 0x1_0000_0000_0000 && ByteOf(lba, 3) == ByteOf(lba, 5)
  {
    BytesOf(lba);
    var rest := lba / 0x1_0000_0000_0000;
    assert rest == 0 <==> lba < 0x1_0000_0000_0000;
    hide ByteOf;
    ExchangeNeutral(ByteOf(lba, 3) - ByteOf(lba, 5), rest);
  }

  lemma ExchangeNeutral(d: int, rest: nat)
    requires -0x100 < d < 0x100
    ensures 0x100_0000 * d - 0x100_0000_0000 * d + 0x1_0000_0000_0000 * rest == 0 <==> d == 0 && rest == 0
  {
  }

  // The driver

  method SelectDrive(ch: Channel, isMaster: bool, lba: u64, lba48: bool)
    requires ch.Valid()
    modifies ch`tf, ch`phase, ch`trace
    ensures ch.Valid() && ch.phase == old(ch.phase) && ch.trace == old(ch.trace)
    ensures ch.tf == Selected(old(ch.tf), isMaster, lba, lba48)
  {
    if lba48 {
      ch.OutB(FEATURES, 0);
      ch.OutB(SECCOUNT, 0);
      ch.OutB(LBA_HIGH, ByteOf(lba, 3));
      ch.OutB(LBA_MID, ByteOf(lba, 4));
      ch.OutB(LBA_LOW, ByteOf(lba, 5));
    }
    ch.OutB(DEVICE, DeviceByte(isMaster, lba));
  }

  function ReadCode(lba48: bool): byte { if lba48 then READ_PIO_EXT else READ_PIO }

  function WriteCode(lba48: bool): byte { if lba48 then WRITE_PIO_EXT else WRITE_PIO }

  /** Selection, set-up and command of one sector transfer. */
  method Issue(ch: Channel, lba: u64, lba48: bool, cmd: byte)
    requires ch.Valid()
    requires cmd == ReadCode(lba48) || cmd == WriteCode(lba48)
    modifies ch`tf, ch`phase, ch`trace
    ensures ch.Valid() && ch.trace == old(ch.trace) + [Command(cmd)]
    ensures var hit := Hit(lba, lba48);
            if hit >= |ch.media[1]| then ch.phase == Failed
            else if cmd == ReadCode(lba48) then ch.phase == Preparing(DataIn(ch.media[1][hit], 0))
            else ch.phase == Preparing(DataOut(1, hit, []))
  {
    AddressedDecodes(ch.tf, lba, lba48);
    ghost var want := Addressed(ch.tf, lba, lba48);
    SelectDrive(ch, false, lba, lba48);
    if lba48 {
      ch.OutB(FEATURES, 0);
    }
    ch.OutB(SECCOUNT, 1);
    ch.OutB(LBA_LOW, ByteOf(lba, 0));
    ch.OutB(LBA_MID, ByteOf(lba, 1));
    ch.OutB(LBA_HIGH, ByteOf(lba, 2));
    assert ch.tf == want;
    ch.OutB(COMMAND, cmd);
  }

  // Polling

  function Polls(log: seq<byte>): seq<Event> { seq(|log|, i requires 0 <= i < |log| => Answer(log[i])) }

  lemma OneMorePoll(trace: seq<Event>, log: seq<byte>, status: byte)
    ensures trace + Polls(log) + [Answer(status)] == trace + Polls(log + [status])
  {
  }

  /** An answer that ends the wait for DRQ. */
  predicate Decisive(status: byte) { Err(status) || Drq(status) }

  /** The answers of one wait for DRQ, at most `limit` of them: none but the last is decisive, and
      that one is unless the limit was reached. */
  ghost predicate Waited(log: seq<byte>, limit: nat) {
    && |log| <= limit
    && (forall i :: 0 <= i < |log| - 1 ==> !Decisive(log[i]))
    && (|log| == limit || (log != [] && Decisive(log[|log| - 1])))
  }

  ghost predicate Granted(log: seq<byte>) { log != [] && Trusted(log[|log| - 1]) }

  /** The answer that granted the data phase had BSY clear. */
  ghost predicate Clean(log: seq<byte>) { log != [] && !Busy(log[|log| - 1]) }

  /** A wait that was not granted ended with ERR, or used up its polls without a decisive one. */
  lemma RefusedExactly(log: seq<byte>, limit: nat)
    requires Waited(log, limit)
    ensures !Granted(log) <==>
            (log != [] && Err(log[|log| - 1])) || (|log| == limit && forall i :: 0 <= i < |log| ==> !Decisive(log[i]))
  {
    if !Granted(log) && !(log != [] && Err(log[|log| - 1])) {
      assert log != [] ==> !Decisive(log[|log| - 1]);
    }
  }

  /** ata_wait_drq: success is a poll with DRQ and without ERR, whatever its BSY bit; the data
      phase has begun when BSY was clear in it. Failure is ERR, or every poll used up. */
  method WaitDrq(ch: Channel, timeoutMs: nat) returns (r: int, ghost log: seq<byte>)
    requires ch.Valid()
    modifies ch`phase, ch`trace
    ensures ch.Valid() && ch.trace == old(ch.trace) + Polls(log)
    ensures Waited(log, timeoutMs * 1000) && r == (if Granted(log) then 0 else -1)
    ensures forall i :: 0 <= i < |log| ==> CanAnswer(old(ch.phase), log[i])
    ensures ch.phase == if log == [] then old(ch.phase) else AfterPoll(old(ch.phase), log[|log| - 1])
  {
    log := [];
    for i := 0 to timeoutMs * 1000
      invariant ch.Valid() && ch.phase == old(ch.phase) && ch.trace == old(ch.trace) + Polls(log) && |log| == i
      invariant forall j :: 0 <= j < i ==> CanAnswer(old(ch.phase), log[j]) && !Decisive(log[j])
    {
      var status := ch.InStatus();
      OneMorePoll(old(ch.trace), log, status);
      log := log + [status];
      if Err(status) { return -1, log; }
      if Drq(status) { return 0, log; }
    }
    r := -1;
  }

  predicate Ready(status: byte) { !Busy(status) && Drdy(status) }

  /** The answers of one wait for a ready drive, at most `limit` of them: none but the last is ready,
      and that one is unless the limit was reached. */
  ghost predicate Settled(log: seq<byte>, limit: nat) {
    && |log| <= limit
    && (forall i :: 0 <= i < |log| - 1 ==> !Ready(log[i]))
    && (|log| == limit || (log != [] && Ready(log[|log| - 1])))
  }

  /** ata_wait_ready, with every answer it had. */
  method WaitReady(ch: Channel, timeoutMs: nat) returns (r: int, ghost log: seq<byte>)
    requires ch.Valid()
    modifies ch`phase, ch`trace
    ensures ch.Valid() && ch.trace == old(ch.trace) + Polls(log) && Settled(log, timeoutMs * 1000)
    ensures if r == 0 then log != [] && Ready(log[|log| - 1])
            else r == -1 && |log| == timeoutMs * 1000 && (log != [] ==> !Ready(log[|log| - 1]))
    ensures old(ch.phase).Committed? ==> forall i :: 0 <= i < |log| ==> CanAnswer(old(ch.phase), log[i])
  {
    log := [];
    for i := 0 to timeoutMs * 1000
      invariant ch.Valid() && ch.trace == old(ch.trace) + Polls(log) && |log| == i
      invariant forall j :: 0 <= j < i ==> !Ready(log[j])
      invariant old(ch.phase).Committed? ==>
                  ch.phase == old(ch.phase) && forall j :: 0 <= j < i ==> CanAnswer(old(ch.phase), log[j])
    {
      var status := ch.InStatus();
      OneMorePoll(old(ch.trace), log, status);
      log := log + [status];
      if !Busy(status) && Drdy(status) { return 0, log; }
    }
    r := -1;
  }

  /** What the polls of one sector transfer were answered: before the words and after the flush. */
  datatype Try = Try(drq: seq<byte>, flush: seq<byte>)

  /** A try waits for DRQ, and then for the flush if it writes and was granted. */
  ghost predicate Attempted(t: Try, write: bool) {
    Waited(t.drq, 500_000) && if write && Granted(t.drq) then Settled(t.flush, 1_000_000) else t.flush == []
  }

  function Moved(n: nat): seq<Event> { seq(n, _ => DataWord) }

  predicate IsWrite(code: byte) { code == WRITE_PIO || code == WRITE_PIO_EXT }

  function Flush(flush: seq<byte>): seq<Event> { [Command(FLUSH_CACHE)] + Polls(flush) }

  /** What one try does on the channel: its command, the polls, and if they granted it all 256 words
      and for a write the flush with its polls. */
  ghost function TryTrace(code: byte, t: Try): seq<Event> {
    [Command(code)] + Polls(t.drq)
    + if Granted(t.drq) then Moved(256) + if IsWrite(code) then Flush(t.flush) else [] else []
  }

  /** The tries of a transfer, one after the other. */
  ghost function Trace(code: byte, tries: seq<Try>): seq<Event> {
    if tries == [] then [] else Trace(code, tries[..|tries| - 1]) + TryTrace(code, tries[|tries| - 1])
  }

  /** The tries of a transfer that got `done` of `count` sectors through: those were granted, and
      one more was refused unless that is all of them. */
  ghost predicate Tried(tries: seq<Try>, done: nat, count: nat, write: bool) {
    && done <= |tries| <= count
    && (forall k :: 0 <= k < |tries| ==> Attempted(tries[k], write) && (Granted(tries[k].drq) <==> k < done))
    && |tries| == if done == count then count else done + 1
  }

  /** So a transfer is complete exactly when no try was refused. */
  lemma CompleteExactly(tries: seq<Try>, done: nat, count: nat, write: bool)
    requires Tried(tries, done, count, write)
    ensures done == count <==> forall k :: 0 <= k < |tries| ==> Granted(tries[k].drq)
  {
    if done < count { assert !Granted(tries[done].drq); }
  }

  /** The commands among some events. */
  function Commands(es: seq<Event>): seq<byte> {
    if es == [] then []
    else
      var n := |es| - 1;
      Commands(es[..n]) + if es[n].Command? then [es[n].code] else []
  }

  lemma {:induction false} CommandsAppend(a: seq<Event>, b: seq<Event>)
    ensures Commands(a + b) == Commands(a) + Commands(b)
    decreases |b|
  {
    if b == [] {
      assert a + b == a;
    } else {
      var n := |b| - 1;
      CommandsAppend(a, b[..n]);
      assert (a + b)[..|a| + n] == a + b[..n];
    }
  }

  lemma {:induction false} NoCommands(es: seq<Event>)
    requires forall i :: 0 <= i < |es| ==> !es[i].Command?
    ensures Commands(es) == []
    decreases |es|
  {
    if es != [] { NoCommands(es[..|es| - 1]); }
  }

  lemma OneCommand(code: byte, es: seq<Event>)
    requires forall i :: 0 <= i < |es| ==> !es[i].Command?
    ensures Commands([Command(code)] + es) == [code]
  {
    CommandsAppend([Command(code)], es);
    NoCommands(es);
    assert Commands([Command(code)]) == Commands([]) + [code];
  }

  /** The commands of one try. */
  lemma TryCommands(code: byte, t: Try)
    ensures Commands(TryTrace(code, t)) == if IsWrite(code) && Granted(t.drq) then [code, FLUSH_CACHE] else [code]
  {
    hide Granted;
    if !Granted(t.drq) {
      OneCommand(code, Polls(t.drq));
      assert TryTrace(code, t) == [Command(code)] + Polls(t.drq);
    } else {
      var front := [Command(code)] + (Polls(t.drq) + Moved(256));
      OneCommand(code, Polls(t.drq) + Moved(256));
      OneCommand(FLUSH_CACHE, Polls(t.flush));
      CommandsAppend(front, Flush(t.flush));
      assert TryTrace(code, t) == if IsWrite(code) then front + Flush(t.flush) else front;
    }
  }

  /** The commands of a read are that command for every try. */
  lemma {:induction false} ReadCommands(lba48: bool, tries: seq<Try>)
    ensures Commands(Trace(ReadCode(lba48), tries)) == seq(|tries|, _ => if lba48 then 0x24 else 0x20)
    decreases |tries|
  {
    if tries != [] {
      var n := |tries| - 1;
      ReadCommands(lba48, tries[..n]);
      TryCommands(ReadCode(lba48), tries[n]);
      CommandsAppend(Trace(ReadCode(lba48), tries[..n]), TryTrace(ReadCode(lba48), tries[n]));
    }
  }

  /** A code and FLUSH CACHE in turn. */
  function InTurn(code: byte, n: nat): seq<byte> { seq(n, i => if i % 2 == 1 then 0xE7 else code) }

  lemma InTurnMore(code: byte, k: nat)
    ensures InTurn(code, 2 * k) + [code] == InTurn(code, 2 * k + 1)
    ensures InTurn(code, 2 * k) + [code, 0xE7] == InTurn(code, 2 * (k + 1))
  {
  }

  lemma TriedFront(tries: seq<Try>, done: nat, count: nat, write: bool)
    requires Tried(tries, done, count, write) && tries != []
    ensures var n := |tries| - 1;
            && Tried(tries[..n], n, n, write) && (done == |tries| || done == n)
            && (Granted(tries[n].drq) <==> done == |tries|)
  {
    hide Attempted, Granted;
  }

  lemma WriteTryCommands(lba48: bool, t: Try)
    ensures Commands(TryTrace(WriteCode(lba48), t)) ==
            var code: byte := if lba48 then 0x34 else 0x30; if Granted(t.drq) then [code, 0xE7] else [code]
  {
    TryCommands(WriteCode(lba48), t);
    hide Commands, TryTrace, Granted;
  }

  lemma TraceCommands(code: byte, tries: seq<Try>)
    requires tries != []
    ensures var n := |tries| - 1;
            Commands(Trace(code, tries)) == Commands(Trace(code, tries[..n])) + Commands(TryTrace(code, tries[n]))
  {
    var n := |tries| - 1;
    hide Commands, TryTrace;
    CommandsAppend(Trace(code, tries[..n]), TryTrace(code, tries[n]));
  }

  lemma NothingTried(code: byte, tries: seq<Try>, done: nat, count: nat)
    requires Tried(tries, done, count, true) && tries == []
    ensures Commands(Trace(code, tries)) == [] && done == 0
    ensures forall any: byte :: InTurn(any, 0) == []
  {
  }

  /** The commands of a write are its own and FLUSH CACHE in turn: every sector that was granted is
      flushed before the next is begun. */
  lemma {:induction false} WriteCommands(lba48: bool, tries: seq<Try>, done: nat, count: nat)
    requires Tried(tries, done, count, true)
    ensures Commands(Trace(WriteCode(lba48), tries)) == InTurn(if lba48 then 0x34 else 0x30, |tries| + done)
    decreases |tries|
  {
    hide *;
    if tries == [] {
      NothingTried(WriteCode(lba48), tries, done, count);
    } else {
      var n := |tries| - 1;
      TriedFront(tries, done, count, true);
      WriteCommands(lba48, tries[..n], n, n);
      WriteTryCommands(lba48, tries[n]);
      TraceCommands(WriteCode(lba48), tries);
      InTurnMore(if lba48 then 0x34 else 0x30, n);
    }
  }

  const BLOCKS: nat := 0x100_0000

  /** Where sector k of a transfer lives in the buffer: the word index is computed in 32 bits. */
  function Slot(k: nat): nat { k % BLOCKS * 256 }

  lemma SlotIndex(k: nat, i: nat)
    requires i < 256
    ensures (k * 256 + i) % 0x1_0000_0000 == Slot(k) + i
  {
    assert k * 256 + i == 0x1_0000_0000 * (k / BLOCKS) + (Slot(k) + i);
  }

  function Address(lba: u64, k: nat): u64 { (lba + k) % TWO_64 }

  /** The buffer after these sectors have been read into it. */
  ghost function Filled(b: seq<word>, got: seq<Sector>): (r: seq<word>)
    requires |b| >= 256 * |got|
    ensures |r| == |b|
    decreases |got|
  {
    if got == [] then b
    else
      var n := |got| - 1;
      SlotFits(n, |got|);
      Patch(Filled(b, got[..n]), Slot(n), got[n])
  }

  /** The sectors marked exist on a unit of that size. */
  ghost predicate OnUnit(size: nat, lba: u64, lba48: bool, landed: seq<bool>) {
    forall k :: 0 <= k < |landed| && landed[k] ==> Hit(Address(lba, k), lba48) < size
  }

  /** The unit after a write that stored the sectors marked in `landed`. */
  ghost function Written(unit: seq<Sector>, b: seq<word>, lba: u64, lba48: bool, landed: seq<bool>): (r: seq<Sector>)
    requires OnUnit(|unit|, lba, lba48, landed)
    requires |b| >= 256 * |landed|
    ensures |r| == |unit|
    decreases |landed|
  {
    if landed == [] then unit
    else
      var n := |landed| - 1;
      SlotFits(n, |landed|);
      Marked(Written(unit, b, lba, lba48, landed[..n]), Hit(Address(lba, n), lba48),
             b[Slot(n)..Slot(n) + 256], landed[n])
  }

  /** A unit with one sector replaced, if it landed. */
  function Marked(unit: seq<Sector>, hit: nat, s: Sector, landed: bool): (r: seq<Sector>)
    requires landed ==> hit < |unit|
    ensures |r| == |unit|
  {
    if landed then unit[hit := s] else unit
  }

  lemma SlotFits(k: nat, n: nat)
    requires k < n
    ensures Slot(k) + 256 <= 256 * n
  {
  }

  lemma ReadRunMore(p: Phase, words: seq<word>, q: Phase, w: word, p': Phase)
    requires ReadRun(p, words, q) && MayRead(q, w, p')
    ensures ReadRun(p, words + [w], p')
  {
    assert (words + [w])[..|words|] == words;
  }

  lemma PatchMore(b: seq<word>, at: nat, words: seq<word>, w: word)
    requires at + |words| < |b|
    ensures Patch(b, at, words)[at + |words| := w] == Patch(b, at, words + [w])
  {
  }

  method ReadWords(ch: Channel, buf: array<word>, sector: nat) returns (ghost got: Sector)
    requires ch.Valid() && Slot(sector) + 256 <= buf.Length
    modifies ch`phase, ch`trace, buf
    ensures ch.Valid() && ReadRun(old(ch.phase), got, ch.phase) && ch.trace == old(ch.trace) + Moved(256)
    ensures buf[..] == Patch(old(buf[..]), Slot(sector), got)
  {
    ghost var was := buf[..];
    ghost var words: seq<word> := [];
    for i := 0 to 256
      invariant ch.Valid() && |words| == i && ch.trace == old(ch.trace) + Moved(i)
      invariant ReadRun(old(ch.phase), words, ch.phase)
      invariant buf[..] == Patch(was, Slot(sector), words)
    {
      SlotIndex(sector, i);
      hide ReadRun, MayRead, Slot, ValidPhase;
      ghost var q, before := ch.phase, buf[..];
      var w := ch.InData();
      ReadRunMore(old(ch.phase), words, q, w, ch.phase);
      buf[(sector * 256 + i) % 0x1_0000_0000] := w;
      PatchMore(was, Slot(sector), words, w);
      assert buf[..] == before[Slot(sector) + i := w];
      words := words + [w];
    }
    got := words;
  }

  method WriteWords(ch: Channel, buf: array<word>, sector: nat)
    requires ch.Valid() && Slot(sector) + 256 <= buf.Length
    modifies ch`phase, ch`media, ch`trace
    ensures ch.Valid() && ch.trace == old(ch.trace) + Moved(256)
    ensures WriteRun(old(ch.phase), old(ch.media), buf[Slot(sector)..Slot(sector) + 256], ch.phase, ch.media)
  {
    ghost var at := Slot(sector);
    for i := 0 to 256
      invariant ch.Valid() && ch.trace == old(ch.trace) + Moved(i)
      invariant WriteRun(old(ch.phase), old(ch.media), buf[at..at + i], ch.phase, ch.media)
    {
      SlotIndex(sector, i);
      ch.OutData(buf[(sector * 256 + i) % 0x1_0000_0000]);
      assert buf[at..at + i + 1][..i] == buf[at..at + i];
    }
  }

  /** One sector of a read: command, poll, 256 words into the sector's slot. They are the sector's
      when the poll had BSY clear. */
  method ReadOne(ch: Channel, lba: u64, sector: nat, buf: array<word>, lba48: bool)
      returns (w: int, ghost log: seq<byte>, ghost got: Sector)
    requires ch.Valid() && Slot(sector) + 256 <= buf.Length
    modifies ch`tf, ch`phase, ch`trace, buf
    ensures ch.Valid() && ch.trace == old(ch.trace) + TryTrace(ReadCode(lba48), Try(log, []))
    ensures Waited(log, 500_000) && w == (if Granted(log) then 0 else -1)
    ensures buf[..] == if w < 0 then old(buf[..]) else Patch(old(buf[..]), Slot(sector), got)
    ensures var hit := Hit(Address(lba, sector), lba48);
            w == 0 && Clean(log) ==> hit < |ch.media[1]| && got == ch.media[1][hit]
  {
    got := seq(256, _ => 0);
    Issue(ch, Address(lba, sector), lba48, ReadCode(lba48));
    w, log := WaitDrq(ch, 500);
    if w < 0 { return; }
    ghost var p := ch.phase;
    got := ReadWords(ch, buf, sector);
    if Clean(log) {
      DataInRun(p.data, got, ch.phase);
      assert got[..256] == got && p.data[..256] == p.data;
    }
  }

  /** After a granting answer with BSY clear, any answer with BSY clear after the flush tells whether
      the sector was stored. */
  ghost predicate Told(t: Try, landed: bool) {
    Clean(t.drq) ==> forall i :: 0 <= i < |t.flush| && !Busy(t.flush[i]) ==> (landed <==> !Fault(t.flush[i]))
  }

  lemma WriteTry(t: Try, lba48: bool, start: seq<Event>)
    ensures Waited(t.drq, 500_000) ==>
              (Attempted(t, true) <==> if Granted(t.drq) then Settled(t.flush, 1_000_000) else t.flush == [])
    ensures start + TryTrace(WriteCode(lba48), t) ==
            if Granted(t.drq) then
              start + [Command(WriteCode(lba48))] + Polls(t.drq) + Moved(256) + Flush(t.flush)
            else start + [Command(WriteCode(lba48))] + Polls(t.drq)
  {
    hide Granted, Polls, Moved, Flush, Waited, Settled;
  }

  /** The unit before and after sector k of a write. */
  ghost predicate SectorSent(unit: seq<Sector>, now: seq<Sector>, words: seq<word>, lba: u64, k: nat, lba48: bool,
                             landed: bool)
  {
    var hit := Hit(Address(lba, k), lba48);
    && Slot(k) + 256 <= |words| && (landed ==> hit < |unit|)
    && now == Marked(unit, hit, words[Slot(k)..Slot(k) + 256], landed)
  }

  /** One sector of a write: command, poll, 256 words from the sector's slot, flush. The sector is
      stored or not, but never in part, and the answers after the flush tell. */
  method WriteOne(ch: Channel, lba: u64, sector: nat, buf: array<word>, lba48: bool)
      returns (w: int, ghost t: Try, ghost landed: bool)
    requires ch.Valid() && Slot(sector) + 256 <= buf.Length
    modifies ch
    ensures ch.Valid() && ch.trace == old(ch.trace) + TryTrace(WriteCode(lba48), t)
    ensures Attempted(t, true) && w == (if Granted(t.drq) then 0 else -1)
    ensures if w < 0 then !landed else Told(t, landed)
    ensures ch.media[0] == old(ch.media)[0]
    ensures SectorSent(old(ch.media)[1], ch.media[1], buf[..], lba, sector, lba48, landed)
  {
    hide Attempted, TryTrace, Polls, Moved, Flush, Waited, Settled, Told, Marked, ValidPhase, WriteRun, CanAnswer;
    hide Stored, Hit, Address, Slot, SectorSent;
    ghost var words := buf[..];
    landed := false;
    NothingSent(ch.phase, ch.media, words, lba, sector, lba48);
    Issue(ch, Address(lba, sector), lba48, WriteCode(lba48));
    ghost var log, flush;
    ghost var start := ch.phase;
    w, log := WaitDrq(ch, 500);
    t := Try(log, []);
    WriteTry(t, lba48, old(ch.trace));
    if w < 0 { return; }
    ghost var p, was := ch.phase, ch.media;
    Granting(start, log[|log| - 1]);
    WriteWords(ch, buf, sector);
    assert buf[Slot(sector)..Slot(sector) + 256] == words[Slot(sector)..Slot(sector) + 256];
    landed := Landed(was, words, lba, sector, lba48, p, ch.phase, ch.media);
    flush := FlushSector(ch);
    t := Try(log, flush);
    WriteTry(t, lba48, old(ch.trace));
    Telling(t, landed);
  }

  method FlushSector(ch: Channel) returns (ghost flush: seq<byte>)
    requires ch.Valid()
    modifies ch`tf, ch`phase, ch`trace
    ensures ch.Valid() && ch.trace == old(ch.trace) + Flush(flush) && Settled(flush, 1_000_000)
    ensures old(ch.phase).Committed? ==> forall i :: 0 <= i < |flush| ==> CanAnswer(old(ch.phase), flush[i])
  {
    hide Settled, CanAnswer;
    ghost var start := ch.trace;
    ch.OutB(COMMAND, FLUSH_CACHE);
    var ignored;
    ignored, flush := WaitReady(ch, 1000);
    assert start + [Command(FLUSH_CACHE)] + Polls(flush) == start + Flush(flush);
  }

  lemma NothingSent(p: Phase, m: seq<seq<Sector>>, words: seq<word>, lba: u64, k: nat, lba48: bool)
    requires ValidPhase(p, m) && Slot(k) + 256 <= |words|
    ensures |m| == 2 && SectorSent(m[1], m[1], words, lba, k, lba48, false)
  {
  }

  lemma Granting(start: Phase, status: byte)
    requires CanAnswer(start, status) && Trusted(status)
    requires start == Failed || (start.Preparing? && start.next.DataOut?)
    ensures !Busy(status) ==> AfterPoll(start, status).DataOut?
  {
  }

  lemma Telling(t: Try, landed: bool)
    requires Clean(t.drq) ==> forall i :: 0 <= i < |t.flush| ==> CanAnswer(Committed(landed), t.flush[i])
    ensures Told(t, landed)
  {
  }

  /** The words of a sector go to the medium together or not at all; in a data phase the drive
      then knows which. */
  lemma Landed(m: seq<seq<Sector>>, words: seq<word>, lba: u64, k: nat, lba48: bool, p: Phase, p': Phase,
               m': seq<seq<Sector>>) returns (landed: bool)
    requires Slot(k) + 256 <= |words| && ValidPhase(p, m)
    requires WriteRun(p, m, words[Slot(k)..Slot(k) + 256], p', m')
    requires var hit := Hit(Address(lba, k), lba48);
             || p == Failed
             || (hit < |m[1]| && (p == DataOut(1, hit, []) || p == Preparing(DataOut(1, hit, []))))
    ensures |m| == |m'| == 2 && m'[0] == m[0] && SectorSent(m[1], m'[1], words, lba, k, lba48, landed)
    ensures p.DataOut? ==> p' == Committed(landed)
  {
    hide Hit, Address, Slot, WriteRun;
    var hit, s := Hit(Address(lba, k), lba48), words[Slot(k)..Slot(k) + 256];
    if p.DataOut? {
      DataOutRun(m, 1, hit, s, p', m');
      landed := p'.stored;
    } else if p.Preparing? {
      var lost := LateRun(m, 1, hit, s, p', m');
      landed := lost == 0 && p'.stored;
    } else {
      FailedRun(m, s, p', m');
      landed := false;
    }
  }

  lemma {:induction false} FailedRun(m: seq<seq<Sector>>, words: seq<word>, p': Phase, m': seq<seq<Sector>>)
    requires |m| == 2 && WriteRun(Failed, m, words, p', m')
    ensures p' == Failed && m' == m
    decreases |words|
  {
    if words != [] {
      var n := |words| - 1;
      var q, mid := LastWrite(Failed, m, words, p', m');
      FailedRun(m, words[..n], q, mid);
    }
  }

  /** Every try so far was granted. */
  ghost predicate Underway(tries: seq<Try>, done: nat, write: bool) {
    |tries| == done && forall k :: 0 <= k < done ==> Attempted(tries[k], write) && Granted(tries[k].drq)
  }

  lemma TraceStart(code: byte, start: seq<Event>)
    ensures start == start + Trace(code, [])
  {
  }

  lemma UnderwayStart(write: bool)
    ensures Underway([], 0, write)
  {
  }

  lemma UnderwayAll(tries: seq<Try>, done: nat, write: bool)
    requires Underway(tries, done, write)
    ensures |tries| == done && Tried(tries, done, done, write)
  {
    hide Attempted, Granted;
  }

  lemma AttemptedRead(t: Try)
    requires Waited(t.drq, 500_000) && t.flush == []
    ensures Attempted(t, false)
  {
  }

  lemma TriedOnce(code: byte, tries: seq<Try>, done: nat, count: nat, t: Try, write: bool, start: seq<Event>,
                  before: seq<Event>, now: seq<Event>)
    requires before == start + Trace(code, tries) && now == before + TryTrace(code, t)
    requires Underway(tries, done, write) && done < count && Attempted(t, write)
    ensures now == start + Trace(code, tries + [t])
    ensures if Granted(t.drq) then Underway(tries + [t], done + 1, write) else Tried(tries + [t], done, count, write)
  {
    hide Attempted, Granted, TryTrace;
    assert (tries + [t])[..done] == tries;
  }

  /** Sectors received after an answer with BSY clear are the ones that were hit. */
  ghost predicate RightIfClean(unit: seq<Sector>, lba: u64, lba48: bool, tries: seq<Try>, got: seq<Sector>) {
    && |got| <= |tries|
    && forall k :: 0 <= k < |got| && Clean(tries[k].drq) ==>
         Hit(Address(lba, k), lba48) < |unit| && got[k] == unit[Hit(Address(lba, k), lba48)]
  }

  lemma RightOnce(unit: seq<Sector>, lba: u64, lba48: bool, tries: seq<Try>, got: seq<Sector>, t: Try, s: Sector)
    requires |tries| == |got| && RightIfClean(unit, lba, lba48, tries, got)
    ensures RightIfClean(unit, lba, lba48, tries + [t], got)
    ensures var hit := Hit(Address(lba, |got|), lba48);
            (Clean(t.drq) ==> hit < |unit| && s == unit[hit])
            ==> RightIfClean(unit, lba, lba48, tries + [t], got + [s])
  {
    hide Clean, Hit, Address;
  }

  lemma FilledOnce(b: seq<word>, got: seq<Sector>, s: Sector)
    requires |b| >= 256 * (|got| + 1)
    ensures Slot(|got|) + 256 <= |b|
    ensures Filled(b, got + [s]) == Patch(Filled(b, got), Slot(|got|), s)
  {
    SlotFits(|got|, |got| + 1);
    assert (got + [s])[..|got|] == got;
    hide Patch, Slot;
  }

  /** Sectors that landed exist, and the answers after the flush told of each. */
  ghost predicate LandedAsTold(size: nat, lba: u64, lba48: bool, tries: seq<Try>, landed: seq<bool>) {
    && |landed| <= |tries| && OnUnit(size, lba, lba48, landed)
    && forall k :: 0 <= k < |landed| ==> Told(tries[k], landed[k])
  }

  lemma LandedOnce(size: nat, lba: u64, lba48: bool, tries: seq<Try>, landed: seq<bool>, t: Try, l: bool)
    requires |tries| == |landed| && LandedAsTold(size, lba, lba48, tries, landed)
    ensures LandedAsTold(size, lba, lba48, tries + [t], landed)
    ensures Told(t, l) && (l ==> Hit(Address(lba, |landed|), lba48) < size) ==>
              LandedAsTold(size, lba, lba48, tries + [t], landed + [l])
  {
    hide Told, Hit, Address;
  }

  lemma OnUnitBefore(size: nat, lba: u64, lba48: bool, landed: seq<bool>)
    requires landed != [] && OnUnit(size, lba, lba48, landed)
    ensures OnUnit(size, lba, lba48, landed[..|landed| - 1])
    ensures landed[|landed| - 1] ==> Hit(Address(lba, |landed| - 1), lba48) < size
  {
    hide Hit, Address;
  }

  lemma WrittenLast(unit: seq<Sector>, b: seq<word>, lba: u64, lba48: bool, landed: seq<bool>)
    requires landed != [] && OnUnit(|unit|, lba, lba48, landed) && |b| >= 256 * |landed|
    ensures var n := |landed| - 1;
            && OnUnit(|unit|, lba, lba48, landed[..n]) && Slot(n) + 256 <= |b|
            && (landed[n] ==> Hit(Address(lba, n), lba48) < |unit|)
            && Written(unit, b, lba, lba48, landed) ==
               Marked(Written(unit, b, lba, lba48, landed[..n]), Hit(Address(lba, n), lba48),
                      b[Slot(n)..Slot(n) + 256], landed[n])
  {
    hide Hit, Address, Slot, Marked, OnUnit;
    OnUnitBefore(|unit|, lba, lba48, landed);
    SlotFits(|landed| - 1, |landed|);
  }

  /** ata_pio_read: `got` are the sectors received, of which those whose granting poll had BSY clear
      are the ones that were hit; -1 comes back exactly when a try was refused. The buffer has each
      sector in its place, and nothing is written to the drive. */
  method PioRead(ch: Channel, lba: u64, count: u32, buf: array<word>, lba48: bool)
      returns (r: int, ghost tries: seq<Try>, ghost got: seq<Sector>)
    requires ch.Valid() && buf.Length >= 256 * count
    modifies ch`tf, ch`phase, ch`trace, buf
    ensures ch.Valid() && ch.trace == old(ch.trace) + Trace(ReadCode(lba48), tries)
    ensures Tried(tries, |got|, count, false) && r == (if |got| == count then 0 else -1)
    ensures RightIfClean(ch.media[1], lba, lba48, tries, got)
    ensures buf[..] == Filled(old(buf[..]), got)
  {
    tries, got := [], [];
    ghost var was := buf[..];
    TraceStart(ReadCode(lba48), ch.trace);
    for sector := 0 to count
      invariant ch.Valid() && ch.trace == old(ch.trace) + Trace(ReadCode(lba48), tries)
      invariant Underway(tries, sector, false) && |got| == sector
      invariant RightIfClean(ch.media[1], lba, lba48, tries, got)
      invariant buf[..] == Filled(was, got)
    {
      SlotFits(sector, count);
      hide Hit, Address, Slot, Clean, Granted, Waited, Trace, TryTrace, Attempted, Tried, RightIfClean, Filled;
      hide ValidPhase;
      ghost var before, filled := ch.trace, buf[..];
      var w, log, s := ReadOne(ch, lba, sector, buf, lba48);
      ghost var t := Try(log, []);
      AttemptedRead(t);
      TriedOnce(ReadCode(lba48), tries, sector, count, t, false, old(ch.trace), before, ch.trace);
      RightOnce(ch.media[1], lba, lba48, tries, got, t, s);
      tries := tries + [t];
      if w < 0 { return -1, tries, got; }
      FilledOnce(was, got, s);
      got := got + [s];
    }
    assert Tried(tries, count, count, false);
    r := 0;
  }

  /** The unit after some sectors of a write. */
  ghost predicate Sent(unit: seq<Sector>, now: seq<Sector>, words: seq<word>, lba: u64, lba48: bool,
                       tries: seq<Try>, landed: seq<bool>)
  {
    && LandedAsTold(|unit|, lba, lba48, tries, landed)
    && |words| >= 256 * |landed| && now == Written(unit, words, lba, lba48, landed)
  }

  lemma SentStart(unit: seq<Sector>, words: seq<word>, lba: u64, lba48: bool)
    ensures Sent(unit, unit, words, lba, lba48, [], [])
  {
  }

  lemma SentMeans(unit: seq<Sector>, now: seq<Sector>, words: seq<word>, lba: u64, lba48: bool,
                  tries: seq<Try>, landed: seq<bool>)
    requires Sent(unit, now, words, lba, lba48, tries, landed)
    ensures LandedAsTold(|unit|, lba, lba48, tries, landed) && |words| >= 256 * |landed|
    ensures now == Written(unit, words, lba, lba48, landed)
  {
    hide Written, OnUnit, Told;
  }

  lemma SentOnce(unit: seq<Sector>, before: seq<Sector>, words: seq<word>, lba: u64, lba48: bool,
                 tries: seq<Try>, landed: seq<bool>, t: Try, l: bool, now: seq<Sector>)
    requires |tries| == |landed| && Sent(unit, before, words, lba, lba48, tries, landed)
    requires |words| >= 256 * (|landed| + 1) && SectorSent(before, now, words, lba, |landed|, lba48, l)
    ensures !l ==> Sent(unit, now, words, lba, lba48, tries + [t], landed)
    ensures Told(t, l) ==> Sent(unit, now, words, lba, lba48, tries + [t], landed + [l])
  {
    hide Hit, Address, Slot, Told, Written, OnUnit;
    var more := landed + [l];
    assert more[..|landed|] == landed && more[|landed|] == l;
    LandedOnce(|unit|, lba, lba48, tries, landed, t, l);
    if Told(t, l) { WrittenLast(unit, words, lba, lba48, more); }
  }

  /** ata_pio_write: as many sectors as `landed` is long were sent, in order, and those marked are on
      unit 1, where the answers after the flush tell which; nothing else on the channel's media
      changes. -1 comes back exactly when a try was refused, never because a sector was lost. */
  method PioWrite(ch: Channel, lba: u64, count: u32, buf: array<word>, lba48: bool)
      returns (r: int, ghost tries: seq<Try>, ghost landed: seq<bool>)
    requires ch.Valid() && buf.Length >= 256 * count
    modifies ch
    ensures ch.Valid() && ch.media[0] == old(ch.media)[0]
    ensures ch.trace == old(ch.trace) + Trace(WriteCode(lba48), tries)
    ensures Tried(tries, |landed|, count, true) && r == (if |landed| == count then 0 else -1)
    ensures LandedAsTold(|old(ch.media)[1]|, lba, lba48, tries, landed)
    ensures ch.media[1] == Written(old(ch.media)[1], buf[..], lba, lba48, landed)
  {
    tries, landed := [], [];
    ghost var unit, words := ch.media[1], buf[..];
    hide Hit, Address, Slot, Told, Granted, Attempted, Trace, TryTrace, Sent, Marked, ValidPhase;
    hide Tried, Underway, LandedAsTold, Written, SectorSent, Clean;
    TraceStart(WriteCode(lba48), ch.trace);
    SentStart(unit, words, lba, lba48);
    UnderwayStart(true);
    for sector := 0 to count
      invariant ch.Valid() && ch.media[0] == old(ch.media)[0]
      invariant ch.trace == old(ch.trace) + Trace(WriteCode(lba48), tries)
      invariant Underway(tries, sector, true) && |landed| == sector
      invariant Sent(unit, ch.media[1], words, lba, lba48, tries, landed)
    {
      SlotFits(sector, count);
      ghost var before, sofar := ch.media[1], ch.trace;
      var w, t, stored := WriteOne(ch, lba, sector, buf, lba48);
      TriedOnce(WriteCode(lba48), tries, sector, count, t, true, old(ch.trace), sofar, ch.trace);
      UnderwayAll(tries, sector, true);
      SentOnce(unit, before, words, lba, lba48, tries, landed, t, stored, ch.media[1]);
      tries := tries + [t];
      if w < 0 {
        SentMeans(unit, ch.media[1], words, lba, lba48, tries, landed);
        return -1, tries, landed;
      }
      landed := landed + [stored];
    }
    SentMeans(unit, ch.media[1], words, lba, lba48, tries, landed);
    UnderwayAll(tries, count, true);
    r := 0;
  }
}
