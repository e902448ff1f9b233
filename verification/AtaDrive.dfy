/** One ATA channel as the driver meets it: the task file with its two-deep registers, two units
    holding sectors, a status register whose other bits mean nothing while BSY is set, a data
    register that serves accesses outside a data phase with anything, and a drive that can still
    fail to store a sector it has accepted (ATA/ATAPI-6, section 6.20 for 48-bit addressing, 9.5 and
    9.6 for PIO in and out). */
module AtaDrive {
  import opened Bytes

  type Sector = s: seq<word> | |s| == 256 witness seq(256, _ => 0)

  const FEATURES: nat := 1
  const SECCOUNT: nat := 2
  const LBA_LOW: nat := 3
  const LBA_MID: nat := 4
  const LBA_HIGH: nat := 5
  const DEVICE: nat := 6
  const COMMAND: nat := 7

  const READ_PIO: byte := 0x20
  const READ_PIO_EXT: byte := 0x24
  const WRITE_PIO: byte := 0x30
  const WRITE_PIO_EXT: byte := 0x34
  const FLUSH_CACHE: byte := 0xE7

  /** A register keeps its previous content behind the current one. */
  datatype Reg = Reg(cur: byte, prev: byte) {
    function Put(v: byte): Reg { Reg(v, cur) }
  }

  datatype TaskFile = TaskFile(features: Reg, count: Reg, low: Reg, mid: Reg, high: Reg, device: byte) {

    function Put(reg: nat, v: byte): TaskFile {
      if reg == FEATURES then this.(features := features.Put(v))
      else if reg == SECCOUNT then this.(count := count.Put(v))
      else if reg == LBA_LOW then this.(low := low.Put(v))
      else if reg == LBA_MID then this.(mid := mid.Put(v))
      else if reg == LBA_HIGH then this.(high := high.Put(v))
      else if reg == DEVICE then this.(device := v)
      else this
    }

    function Unit(): nat { device / 16 % 2 }

    predicate LbaMode() { device / 64 % 2 == 1 }

    /** 28-bit address: the low nibble of the device register on top. */
    function Lba28(): nat {
      low.cur + 0x100 * mid.cur + 0x1_0000 * high.cur + 0x100_0000 * (device % 16)
    }

    function Count28(): nat { if count.cur == 0 then 256 else count.cur }

    /** 48-bit address: the previous contents above the current ones. */
    function Lba48(): nat {
      low.cur + 0x100 * mid.cur + 0x1_0000 * high.cur
      + 0x100_0000 * low.prev + 0x1_0000_0000 * mid.prev + 0x100_0000_0000 * high.prev
    }

    function Count48(): nat {
      var n := count.cur + 0x100 * count.prev;
      if n == 0 then 0x1_0000 else n
    }
  }

  /** Where the drive is in a command. */
  datatype Phase =
    | Idle
    | Preparing(next: Phase)                // BSY: the command is being worked on
    | DataIn(data: Sector, sent: nat)       // DRQ: words to be read
    | DataOut(unit: nat, lba: nat, got: seq<word>) // DRQ: words to be written
    | Committed(stored: bool)               // all words received: BSY, then the outcome
    | Failed                                // ERR

  /** A flush waits for a sector that is being stored. */
  function Flushed(p: Phase): Phase { if p.Committed? then p else Idle }

  /** What a command register write starts. A transfer of one sector inside the unit is
      accepted; anything else the model's drive aborts. */
  function Start(p: Phase, tf: TaskFile, cmd: byte, media: seq<seq<Sector>>): Phase
    requires |media| == 2
  {
    var ext := cmd == READ_PIO_EXT || cmd == WRITE_PIO_EXT;
    var lba := if ext then tf.Lba48() else tf.Lba28();
    var count := if ext then tf.Count48() else tf.Count28();
    if cmd == FLUSH_CACHE then Flushed(p)
    else if cmd == READ_PIO || cmd == READ_PIO_EXT then
      if tf.LbaMode() && count == 1 && lba < |media[tf.Unit()]| then
        Preparing(DataIn(media[tf.Unit()][lba], 0))
      else Failed
    else if cmd == WRITE_PIO || cmd == WRITE_PIO_EXT then
      if tf.LbaMode() && count == 1 && lba < |media[tf.Unit()]| then
        Preparing(DataOut(tf.Unit(), lba, []))
      else Failed
    else Failed
  }

  predicate Err(status: byte) { status % 2 == 1 }

  predicate Drq(status: byte) { status / 8 % 2 == 1 }

  predicate Drdy(status: byte) { status / 64 % 2 == 1 }

  predicate Busy(status: byte) { status / 128 % 2 == 1 }

  /** ERR or DF. */
  predicate Fault(status: byte) { Err(status) || status / 32 % 2 == 1 }

  predicate Fits(p: Phase, media: seq<seq<Sector>>)
    requires p.DataOut? && |media| == 2
  {
    p.unit < 2 && p.lba < |media[p.unit]| && |p.got| < 256
  }

  /** What a drive in phase p may answer to a poll: with BSY set anything. Otherwise DRQ without ERR
      only for a data phase, ERR after a command that failed, and after the words of a write ERR or
      DF exactly when the sector was not stored. */
  predicate CanAnswer(p: Phase, status: byte) {
    Busy(status) ||
    match p
    case Idle => Err(status) || !Drq(status)
    case Committed(stored) => (Err(status) || !Drq(status)) && (stored <==> !Fault(status))
    case Failed => Err(status)
    case _ => true
  }

  /** The phase that answer reveals. */
  function AfterPoll(p: Phase, status: byte): Phase {
    if Busy(status) || p.Committed? then p
    else if Err(status) then Failed
    else if Drq(status) && p.Preparing? then p.next
    else p
  }

  /** A word w is read from the data register: the next of the sector during a data-in phase, and
      any word otherwise. */
  predicate Fetched(p: Phase, w: word, p': Phase) {
    if p.DataIn? && p.sent < 256 then w == p.data[p.sent] && p' == p.(sent := p.sent + 1) else p' == p
  }

  /** The same, but a drive still preparing may reach its data phase just before. */
  predicate MayRead(p: Phase, w: word, p': Phase) {
    Fetched(p, w, p') || (p.Preparing? && Fetched(p.next, w, p'))
  }

  predicate ValidPhase(p: Phase, media: seq<seq<Sector>>) {
    && |media| == 2
    && (p.DataOut? ==> Fits(p, media))
    && (p.Preparing? ==> p.next.DataIn? || (p.next.DataOut? && Fits(p.next, media)))
  }

  /** The effect of a word written to the data register: in a data-out phase the 256th completes the
      sector, which then is stored or not; otherwise none. */
  predicate Received(p: Phase, media: seq<seq<Sector>>, w: word, p': Phase, media': seq<seq<Sector>>)
    requires |media| == 2 && (p.DataOut? ==> Fits(p, media))
  {
    if !p.DataOut? then p' == p && media' == media
    else if |p.got| < 255 then p' == p.(got := p.got + [w]) && media' == media
    else p'.Committed? && media' == if p'.stored then Stored(media, p.unit, p.lba, p.got + [w]) else media
  }

  predicate MayWrite(p: Phase, media: seq<seq<Sector>>, w: word, p': Phase, media': seq<seq<Sector>>)
    requires ValidPhase(p, media)
  {
    Received(p, media, w, p', media') || (p.Preparing? && Received(p.next, media, w, p', media'))
  }

  /** What the driver can be seen to do on the channel, once the registers are set up: a command
      written, a status read, a word moved either way. */
  datatype Event = Command(code: byte) | Answer(status: byte) | DataWord

  class Channel {
    var tf: TaskFile
    var phase: Phase
    var media: seq<seq<Sector>>
    ghost var trace: seq<Event>

    ghost predicate Valid()
      reads this
    {
      ValidPhase(phase, media)
    }

    method OutB(reg: nat, v: byte)
      requires Valid()
      modifies this`tf, this`phase, this`trace
      ensures Valid()
      ensures reg != COMMAND ==> tf == old(tf).Put(reg, v) && phase == old(phase) && trace == old(trace)
      ensures reg == COMMAND ==> tf == old(tf) && phase == Start(old(phase), tf, v, media)
      ensures reg == COMMAND ==> trace == old(trace) + [Command(v)]
    {
      if reg == COMMAND {
        phase := Start(phase, tf, v, media);
        trace := trace + [Command(v)];
      } else {
        tf := tf.Put(reg, v);
      }
    }

    /** A status poll, answered as the drive likes. */
    method InStatus() returns (status: byte)
      requires Valid()
      modifies this`phase, this`trace
      ensures Valid()
      ensures CanAnswer(old(phase), status) && phase == AfterPoll(old(phase), status)
      ensures trace == old(trace) + [Answer(status)]
    {
      status := *;
      if !CanAnswer(phase, status) { status := 0x80; }
      phase := AfterPoll(phase, status);
      trace := trace + [Answer(status)];
    }

    /** A word from the data register. */
    method InData() returns (w: word)
      requires Valid()
      modifies this`phase, this`trace
      ensures Valid() && trace == old(trace) + [DataWord]
      ensures MayRead(old(phase), w, phase)
    {
      trace := trace + [DataWord];
      w := *;
      var reached := *;
      if reached && phase.Preparing? && phase.next.DataIn? { phase := phase.next; }
      if phase.DataIn? && phase.sent < 256 {
        w := phase.data[phase.sent];
        phase := phase.(sent := phase.sent + 1);
      }
    }

    /** A word to the data register. */
    method OutData(w: word)
      requires Valid()
      modifies this`phase, this`media, this`trace
      ensures Valid() && trace == old(trace) + [DataWord]
      ensures MayWrite(old(phase), old(media), w, phase, media)
    {
      trace := trace + [DataWord];
      var reached := *;
      if reached && phase.Preparing? && phase.next.DataOut? { phase := phase.next; }
      if phase.DataOut? {
        var p := phase;
        if |p.got| < 255 {
          phase := p.(got := p.got + [w]);
        } else {
          var stored := *;
          if stored { media := Stored(media, p.unit, p.lba, p.got + [w]); }
          phase := Committed(stored);
        }
      }
    }
  }

  function Stored(media: seq<seq<Sector>>, unit: nat, lba: nat, s: Sector): (m: seq<seq<Sector>>)
    requires unit < |media| && lba < |media[unit]|
    ensures |m| == |media|
  {
    var sectors: seq<Sector> := media[unit];
    media[unit := sectors[lba := s]]
  }

  // Whole sectors through the data register

  lemma LastWord(words: seq<word>)
    requires words != []
    ensures words == words[..|words| - 1] + [words[|words| - 1]]
  {
  }

  /** Words read one after the other. */
  ghost predicate ReadRun(p: Phase, words: seq<word>, p': Phase)
    decreases |words|
  {
    if words == [] then p' == p
    else
      var n := |words| - 1;
      exists q :: ReadRun(p, words[..n], q) && MayRead(q, words[n], p')
  }

  ghost predicate WriteRun(p: Phase, m: seq<seq<Sector>>, words: seq<word>, p': Phase, m': seq<seq<Sector>>)
    requires ValidPhase(p, m)
    ensures WriteRun(p, m, words, p', m') ==> ValidPhase(p', m')
    decreases |words|
  {
    if words == [] then p' == p && m' == m
    else
      var n := |words| - 1;
      exists q, mid: seq<seq<Sector>> ::
        ValidPhase(q, mid) && WriteRun(p, m, words[..n], q, mid) && MayWrite(q, mid, words[n], p', m')
  }

  /** In a data-in phase the words are the sector's. */
  lemma {:induction false} DataInRun(data: Sector, words: seq<word>, p': Phase)
    requires ReadRun(DataIn(data, 0), words, p') && |words| <= 256
    ensures words == data[..|words|] && p' == DataIn(data, |words|)
    decreases |words|
  {
    if words != [] {
      var n := |words| - 1;
      var q :| ReadRun(DataIn(data, 0), words[..n], q) && MayRead(q, words[n], p');
      hide ReadRun;
      DataInRun(data, words[..n], q);
      LastWord(words);
    }
  }

  /** Before it, they can be any words at all. */
  lemma {:induction false} EarlyReadRun(p: Phase, words: seq<word>)
    requires p.Preparing?
    ensures ReadRun(p, words, p)
    decreases |words|
  {
    if words != [] {
      EarlyReadRun(p, words[..|words| - 1]);
      assert MayRead(p, words[|words| - 1], p);
    }
  }

  lemma {:induction false} DataOutRun(m: seq<seq<Sector>>, unit: nat, lba: nat, words: seq<word>, p': Phase,
                                      m': seq<seq<Sector>>)
    requires |m| == 2 && unit < 2 && lba < |m[unit]| && |words| <= 256
    requires WriteRun(DataOut(unit, lba, []), m, words, p', m')
    ensures if |words| < 256 then p' == DataOut(unit, lba, words) && m' == m
            else p'.Committed? && m' == if p'.stored then Stored(m, unit, lba, words) else m
    decreases |words|
  {
    if words != [] {
      var n := |words| - 1;
      var q, mid := LastWrite(DataOut(unit, lba, []), m, words, p', m');
      hide WriteRun, Stored;
      DataOutRun(m, unit, lba, words[..n], q, mid);
      LastWord(words);
    }
  }

  lemma {:induction false} EarlyWriteRun(p: Phase, m: seq<seq<Sector>>, words: seq<word>)
    requires ValidPhase(p, m) && p.Preparing?
    ensures WriteRun(p, m, words, p, m)
    decreases |words|
  {
    if words != [] {
      EarlyWriteRun(p, m, words[..|words| - 1]);
      assert MayWrite(p, m, words[|words| - 1], p, m);
    }
  }

  /** Where a drive can be that was still preparing to receive the first of these words: it has
      lost the first `lost` of them. */
  ghost predicate Behind(m: seq<seq<Sector>>, unit: nat, lba: nat, words: seq<word>, p': Phase,
                         m': seq<seq<Sector>>, lost: nat)
    requires |m| == 2 && unit < 2 && lba < |m[unit]|
  {
    lost <= |words| <= 256 &&
    if lost == |words| then p' == Preparing(DataOut(unit, lba, [])) && m' == m
    else if |words| - lost < 256 then p' == DataOut(unit, lba, words[lost..]) && m' == m
    else p'.Committed? && m' == if p'.stored then Stored(m, unit, lba, words) else m
  }

  lemma LateStep(m: seq<seq<Sector>>, unit: nat, lba: nat, words: seq<word>, w: word, q: Phase,
                 mid: seq<seq<Sector>>, p': Phase, m': seq<seq<Sector>>, lost: nat)
      returns (lost': nat)
    requires |m| == 2 && unit < 2 && lba < |m[unit]| && |words| < 256
    requires Behind(m, unit, lba, words, q, mid, lost) && ValidPhase(q, mid) && MayWrite(q, mid, w, p', m')
    ensures Behind(m, unit, lba, words + [w], p', m', lost')
  {
    lost' := if lost == |words| && p' == q then lost + 1 else lost;
    var more := words + [w];
    assert more[lost..] == words[lost..] + [w];
    if lost == |words| {
      assert words[lost..] == [] && more[0..] == more;
    } else {
      assert more[0..] == more && words[0..] == words;
    }
    hide Stored;
  }

  lemma {:induction false} LateRun(m: seq<seq<Sector>>, unit: nat, lba: nat, words: seq<word>, p': Phase,
                                   m': seq<seq<Sector>>) returns (lost: nat)
    requires |m| == 2 && unit < 2 && lba < |m[unit]| && |words| <= 256
    requires WriteRun(Preparing(DataOut(unit, lba, [])), m, words, p', m')
    ensures Behind(m, unit, lba, words, p', m', lost)
    decreases |words|
  {
    assert ValidPhase(Preparing(DataOut(unit, lba, [])), m);
    hide Behind, MayWrite, ValidPhase, WriteRun;
    if words == [] {
      LateStart(m, unit, lba, p', m');
      lost := 0;
    } else {
      var n := |words| - 1;
      var q, mid := LastWrite(Preparing(DataOut(unit, lba, [])), m, words, p', m');
      lost := LateRun(m, unit, lba, words[..n], q, mid);
      lost := LateStep(m, unit, lba, words[..n], words[n], q, mid, p', m', lost);
      LastWord(words);
    }
  }

  lemma LateStart(m: seq<seq<Sector>>, unit: nat, lba: nat, p': Phase, m': seq<seq<Sector>>)
    requires |m| == 2 && unit < 2 && lba < |m[unit]|
    requires WriteRun(Preparing(DataOut(unit, lba, [])), m, [], p', m')
    ensures Behind(m, unit, lba, [], p', m', 0)
  {
  }

  lemma LastWrite(p: Phase, m: seq<seq<Sector>>, words: seq<word>, p': Phase, m': seq<seq<Sector>>)
      returns (q: Phase, mid: seq<seq<Sector>>)
    requires ValidPhase(p, m) && words != [] && WriteRun(p, m, words, p', m')
    ensures ValidPhase(q, mid) && WriteRun(p, m, words[..|words| - 1], q, mid)
    ensures MayWrite(q, mid, words[|words| - 1], p', m')
  {
    hide MayWrite, ValidPhase;
    var n := |words| - 1;
    q, mid :| ValidPhase(q, mid) && WriteRun(p, m, words[..n], q, mid) && MayWrite(q, mid, words[n], p', m');
  }

  // When a poll can be trusted

  /** What the driver takes for the beginning of the data phase; it does not look at BSY. */
  predicate Trusted(status: byte) { !Err(status) && Drq(status) }

  /** The sector read after such a poll is sure to be right if and only if BSY was clear. */
  lemma SectorReadExact(data: Sector, status: byte)
    requires Trusted(status)
    ensures (forall words: Sector, p' ::
               ReadRun(AfterPoll(Preparing(DataIn(data, 0)), status), words, p') ==> words == data)
            <==> !Busy(status)
  {
    var p := Preparing(DataIn(data, 0));
    if Busy(status) {
      var other: Sector := data[0 := if data[0] == 0 then 1 else 0];
      EarlyReadRun(p, other);
      assert ReadRun(AfterPoll(p, status), other, p) && other[0] != data[0];
    } else {
      forall words: Sector, p' | ReadRun(AfterPoll(p, status), words, p') ensures words == data {
        DataInRun(data, words, p');
      }
    }
  }

  /** An answer that says the sector was stored: BSY clear, neither ERR nor DF. */
  predicate Confirms(status: byte) { !Busy(status) && !Fault(status) }

  /** Words were written, and a poll after the flush command confirmed them. */
  ghost predicate WriteConfirmed(p: Phase, m: seq<seq<Sector>>, words: Sector, p': Phase, m': seq<seq<Sector>>,
                                 answer: byte)
    requires ValidPhase(p, m)
  {
    WriteRun(p, m, words, p', m') && CanAnswer(Flushed(p'), answer) && Confirms(answer)
  }

  /** A sector written after such a poll, and confirmed after the flush, is sure to be on the medium
      if and only if BSY was clear in the first poll (or it was there before). */
  lemma SectorWriteExact(m: seq<seq<Sector>>, unit: nat, lba: nat, words: Sector, status: byte)
    requires |m| == 2 && unit < 2 && lba < |m[unit]| && Trusted(status)
    ensures var p := AfterPoll(Preparing(DataOut(unit, lba, [])), status);
            (forall p', m', answer ::
               WriteConfirmed(p, m, words, p', m', answer) ==> m' == Stored(m, unit, lba, words))
            <==> !Busy(status) || m[unit][lba] == words
  {
    var start := Preparing(DataOut(unit, lba, []));
    var p := AfterPoll(start, status);
    hide WriteRun, Stored;
    if Busy(status) {
      EarlyWriteRun(p, m, words);
      assert WriteConfirmed(p, m, words, p, m, 0x40);
      StoredSame(m, unit, lba, words);
      forall p', m', answer | WriteConfirmed(p, m, words, p', m', answer) && m[unit][lba] == words ensures m' == m {
        var lost := LateRun(m, unit, lba, words, p', m');
      }
    } else {
      forall p', m', answer | WriteConfirmed(p, m, words, p', m', answer) ensures m' == Stored(m, unit, lba, words) {
        DataOutRun(m, unit, lba, words, p', m');
      }
    }
  }

  /** A drive that took all the words may still lose the sector. */
  lemma LossPossible(m: seq<seq<Sector>>, unit: nat, lba: nat, words: Sector)
    requires |m| == 2 && unit < 2 && lba < |m[unit]|
    ensures WriteRun(DataOut(unit, lba, []), m, words, Committed(false), m)
  {
    var q := DataOut(unit, lba, words[..255]);
    WordsTaken(m, unit, lba, words[..255]);
    assert MayWrite(q, m, words[255], Committed(false), m);
  }

  lemma {:induction false} WordsTaken(m: seq<seq<Sector>>, unit: nat, lba: nat, words: seq<word>)
    requires |m| == 2 && unit < 2 && lba < |m[unit]| && |words| < 256
    ensures WriteRun(DataOut(unit, lba, []), m, words, DataOut(unit, lba, words), m)
    decreases |words|
  {
    if words != [] {
      var n := |words| - 1;
      WordsTaken(m, unit, lba, words[..n]);
      LastWord(words);
      assert MayWrite(DataOut(unit, lba, words[..n]), m, words[n], DataOut(unit, lba, words), m);
    }
  }

  lemma StoredSame(m: seq<seq<Sector>>, unit: nat, lba: nat, s: Sector)
    requires unit < |m| && lba < |m[unit]|
    ensures Stored(m, unit, lba, s) == m <==> m[unit][lba] == s
  {
    var sectors: seq<Sector> := m[unit];
    assert Stored(m, unit, lba, s)[unit] == sectors[lba := s];
    if m[unit][lba] == s { assert sectors[lba := s] == sectors; }
  }
}
