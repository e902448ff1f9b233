/** What runs of PIO transfers mean: a plain array of sectors. */
module AtaDisk {
  import opened Bytes
  import opened AtaDrive
  import opened AtaDriver

  // When a transfer touches the sectors it names

  /** Sector k of the transfer is sector lba + k of the disk. */
  ghost predicate Faithful(lba: u64, count: nat, lba48: bool) {
    forall k :: 0 <= k < count ==> Hit(Address(lba, k), lba48) == lba + k
  }

  lemma Faithful28Exact(lba: u64, count: u32)
    requires count > 0
    ensures Faithful(lba, count, false) <==> lba + count <= 0x1000_0000
  {
    if lba + count <= 0x1000_0000 {
      forall k | 0 <= k < count ensures Hit(Address(lba, k), false) == lba + k {
        Hit28Exact(lba + k);
      }
    } else {
      var last := count - 1;
      assert Hit(Address(lba, last), false) < 0x1000_0000 <= lba + last;
    }
  }

  lemma FaithfulPart(lba: u64, count: nat, n: nat, lba48: bool)
    requires Faithful(lba, count, lba48) && n <= count
    ensures Faithful(lba, n, lba48)
  {
    hide Hit, Address;
  }

  /** Bits 31:24 equal bits 47:40, and nothing is set above. */
  predicate Swappable(a: nat) {
    a < 0x1_0000_0000_0000 && ByteOf(a, 3) == ByteOf(a, 5)
  }

  lemma Faithful48Exact(lba: u64, count: u32)
    ensures Faithful(lba, count, true) <==> forall a :: lba <= a < lba + count ==> Swappable(a)
  {
    forall k | 0 <= k < count
      ensures Hit(Address(lba, k), true) == lba + k <==> Swappable(lba + k)
    {
      HitIsSwappable(lba, k);
    }
    if Faithful(lba, count, true) {
      forall a | lba <= a < lba + count ensures Swappable(a) {
        var k := a - lba;
        assert Hit(Address(lba, k), true) == lba + k;
      }
    }
  }

  lemma HitIsSwappable(lba: u64, k: nat)
    ensures Hit(Address(lba, k), true) == lba + k <==> Swappable(lba + k)
  {
    hide Hit, ByteOf;
    var a := Address(lba, k);
    Hit48Exact(a);
    if a != lba + k {
      HitBelow48(a);
    }
  }

  lemma HitBelow48(a: nat)
    ensures Hit(a, true) < 0x1_0000_0000_0000
  {
  }

  /** In particular below 2^24, that is on disks of up to 8 GiB. */
  lemma Faithful48Small(lba: u64, count: u32)
    requires lba + count <= 0x100_0000
    ensures Faithful(lba, count, true)
  {
    forall a | lba <= a < lba + count ensures Swappable(a) {
      SmallIsSwappable(a);
    }
    Faithful48Exact(lba, count);
  }

  lemma SmallIsSwappable(a: nat)
    requires a < 0x100_0000
    ensures Swappable(a)
  {
  }

  /** Sector 2^24 is the first the 48-bit path misses: the drive is asked for sector 2^40. */
  lemma Swapped48Example()
    ensures Hit(0x100_0000, true) == 0x100_0000_0000
    ensures !Faithful(0x100_0000, 1, true)
  {
    assert Address(0x100_0000, 0) == 0x100_0000;
    assert Hit(Address(0x100_0000, 0), true) != 0x100_0000 + 0;
  }

  /** Disks are registered for both units, but every transfer selects unit 1: it reaches the
      disk it is meant for exactly when that is the slave. */
  lemma UnitExact(tf: TaskFile, isMaster: bool, lba: u64, lba48: bool)
    ensures Addressed(tf, lba, lba48).Unit() == Selected(tf, isMaster, lba, lba48).Unit() <==> !isMaster
  {
    AddressedDecodes(tf, lba, lba48);
    DeviceNibble(ByteOf(lba, 3) % 16);
  }

  // Where the words end up

  /** The words of some sectors, one sector after the other. */
  ghost function Flat(sectors: seq<Sector>): (w: seq<word>)
    ensures |w| == 256 * |sectors|
  {
    if sectors == [] then [] else Flat(sectors[..|sectors| - 1]) + sectors[|sectors| - 1]
  }

  /** A read of at most 2^24 sectors lays them out one after the other and leaves the rest of
      the buffer alone. */
  lemma {:induction false} FilledIsFlat(b: seq<word>, got: seq<Sector>)
    requires |b| >= 256 * |got| && |got| <= BLOCKS
    ensures Filled(b, got) == Flat(got) + b[256 * |got|..]
    decreases |got|
  {
    if got != [] {
      var n := |got| - 1;
      FilledIsFlat(b, got[..n]);
      SmallSlot(n);
      PatchAfter(Flat(got[..n]), b, 256 * n, got[n]);
    }
  }

  lemma SmallSlot(k: nat)
    requires k < BLOCKS
    ensures Slot(k) == 256 * k
  {
  }

  lemma PatchAfter(front: seq<word>, b: seq<word>, at: nat, s: seq<word>)
    requires |front| == at && at + |s| <= |b|
    ensures Patch(front + b[at..], at, s) == (front + s) + b[at + |s|..]
  {
  }

  /** Past 2^24 sectors the 32-bit index comes round: the first sector's words are replaced by
      those of the sector after. */
  lemma LargeReadOverwrites(b: seq<word>, got: seq<Sector>)
    requires |b| >= 256 * |got| && |got| == BLOCKS + 1
    ensures Filled(b, got)[..256] == got[BLOCKS]
  {
    assert Slot(BLOCKS) == 0;
  }

  /** Distinct words of a transfer have distinct places exactly up to 2^24 sectors. */
  lemma SlotsDistinctExact(count: nat)
    ensures (forall j, k :: 0 <= j < k < count ==> Slot(j) != Slot(k)) <==> count <= BLOCKS
  {
    if count > BLOCKS {
      assert Slot(0) == Slot(BLOCKS);
    }
  }

  /** One sector of some data. */
  function Block(data: seq<word>, k: nat): (s: Sector)
    requires 256 * k + 256 <= |data|
  {
    data[256 * k..256 * k + 256]
  }

  lemma {:induction false} BlockOfFlat(sectors: seq<Sector>, j: nat)
    requires j < |sectors|
    ensures Block(Flat(sectors), j) == sectors[j]
    decreases |sectors|
  {
    var n := |sectors| - 1;
    if j < n {
      BlockOfFlat(sectors[..n], j);
      assert Block(Flat(sectors), j) == Block(Flat(sectors[..n]), j);
    }
  }

  /** The sector array with n sectors replaced from lba on. */
  function Overwrite(unit: seq<Sector>, lba: nat, data: seq<word>, n: nat): (r: seq<Sector>)
    requires n == 0 || lba + n <= |unit|
    requires |data| >= 256 * n
    ensures |r| == |unit|
    ensures forall l :: 0 <= l < |unit| ==> r[l] == if lba <= l < lba + n then Block(data, l - lba) else unit[l]
  {
    if n == 0 then unit
    else
      var before: seq<Sector> := Overwrite(unit, lba, data, n - 1);
      before[lba + n - 1 := Block(data, n - 1)]
  }

  /** A write of at most 2^24 sectors, all of which landed, replaces exactly the sectors it names. */
  lemma {:induction false} WrittenIsOverwrite(unit: seq<Sector>, b: seq<word>, lba: u64, lba48: bool,
                                              landed: seq<bool>)
    requires OnUnit(|unit|, lba, lba48, landed) && forall k :: 0 <= k < |landed| ==> landed[k]
    requires |b| >= 256 * |landed| && Faithful(lba, |landed|, lba48) && |landed| <= BLOCKS
    ensures lba + |landed| <= |unit| || landed == []
    ensures Written(unit, b, lba, lba48, landed) == Overwrite(unit, lba, b, |landed|)
    decreases |landed|
  {
    if landed != [] {
      var n := |landed| - 1;
      assert Hit(Address(lba, n), lba48) == lba + n;
      WrittenIsOverwrite(unit, b, lba, lba48, landed[..n]);
      SmallSlot(n);
    }
  }

  /** A read whose granting polls had BSY clear received the sectors it names. */
  lemma ReceivedIsNamed(unit: seq<Sector>, lba: u64, lba48: bool, tries: seq<Try>, got: seq<Sector>)
    requires RightIfClean(unit, lba, lba48, tries, got) && forall k :: 0 <= k < |got| ==> Clean(tries[k].drq)
    requires Faithful(lba, |got|, lba48)
    ensures got == [] || (lba + |got| <= |unit| && got == unit[lba..lba + |got|])
  {
    hide Hit, Address, Clean;
    forall k | 0 <= k < |got| ensures lba + k < |unit| && got[k] == unit[lba + k] {
      assert Hit(Address(lba, k), lba48) == lba + k;
    }
    if got != [] {
      var n := |got| - 1;
      assert Clean(tries[n].drq) && Hit(Address(lba, n), lba48) == lba + n;
    }
  }

  // Runs

  datatype Request = Read(lba: u64, count: u32) | Write(lba: u64, count: u32, data: seq<word>) {
    /** Within what the driver addresses correctly. */
    ghost predicate Proper(lba48: bool) {
      && Faithful(lba, count, lba48) && count <= BLOCKS
      && (Write? ==> |data| == 256 * count)
    }
  }

  /** How a request went: sectors transferred, what the polls were answered, and, for a read, the
      words obtained. */
  datatype Outcome = Outcome(done: nat, ok: bool, tries: seq<Try>, words: seq<word>)

  /** An answer after the flush says that the sector was stored. */
  ghost predicate Confirmed(flush: seq<byte>) {
    exists i :: 0 <= i < |flush| && Confirms(flush[i])
  }

  /** Every sector was granted by a poll with BSY clear and, if written, confirmed. */
  ghost predicate Trustworthy(r: Request, o: Outcome) {
    && o.done <= |o.tries|
    && forall k :: 0 <= k < o.done ==> Clean(o.tries[k].drq) && (r.Write? ==> Confirmed(o.tries[k].flush))
  }

  /** A request succeeds exactly when none of its tries was refused. */
  ghost predicate Accounted(r: Request, o: Outcome, result: int) {
    && Tried(o.tries, o.done, r.count, r.Write?) && (o.ok <==> o.done == r.count)
    && result == if o.ok then 0 else -1
  }

  /** What a request does on the channel. */
  ghost function RequestTrace(r: Request, o: Outcome, lba48: bool): seq<Event> {
    Trace(if r.Write? then WriteCode(lba48) else ReadCode(lba48), o.tries)
  }

  /** The requests of a run, one after the other. */
  ghost function RunTrace(rs: seq<Request>, os: seq<Outcome>, lba48: bool): seq<Event>
    requires |os| <= |rs|
    decreases |os|
  {
    if os == [] then []
    else
      var n := |os| - 1;
      RunTrace(rs, os[..n], lba48) + RequestTrace(rs[n], os[n], lba48)
  }

  /** The sectors named by the first n of a read. */
  ghost function Named(unit: seq<Sector>, lba: nat, n: nat): seq<Sector>
    requires n == 0 || lba + n <= |unit|
  {
    if n == 0 then [] else unit[lba..lba + n]
  }

  /** One request against the plain sector array: a read returns the sectors it names and changes
      nothing, a write replaces them; a failing call has transferred the first `done` only. */
  ghost predicate Step(unit: seq<Sector>, r: Request, o: Outcome, unit': seq<Sector>) {
    && o.done <= r.count && (o.ok <==> o.done == r.count)
    && (o.done > 0 ==> r.lba + o.done <= |unit|)
    && match r
       case Read(lba, _) => unit' == unit && o.words == Flat(Named(unit, lba, o.done))
       case Write(lba, count, data) =>
         && |data| == 256 * count
         && unit' == Overwrite(unit, lba, data, o.done)
  }

  ghost predicate Steps(unit: seq<Sector>, rs: seq<Request>, os: seq<Outcome>, unit': seq<Sector>)
    decreases |rs|
  {
    && |rs| == |os|
    && if rs == [] then unit' == unit
       else
         var n := |rs| - 1;
         exists mid: seq<Sector> :: Steps(unit, rs[..n], os[..n], mid) && Step(mid, rs[n], os[n], unit')
  }

  /** The writes among the requests have as much data as their outcomes say was transferred. */
  ghost predicate Recorded(rs: seq<Request>, os: seq<Outcome>) {
    && |rs| == |os|
    && forall i :: 0 <= i < |rs| && rs[i].Write? ==> os[i].done <= rs[i].count && |rs[i].data| == 256 * rs[i].count
  }

  /** Sector l by its history: from the most recent write that got as far as l, or else what was
      there at first. */
  ghost function Latest(unit: seq<Sector>, rs: seq<Request>, os: seq<Outcome>, l: nat): Sector
    requires l < |unit| && Recorded(rs, os)
    decreases |rs|
  {
    if rs == [] then unit[l]
    else
      var n := |rs| - 1;
      if rs[n].Write? && rs[n].lba <= l < rs[n].lba + os[n].done then Block(rs[n].data, l - rs[n].lba)
      else Latest(unit, rs[..n], os[..n], l)
  }

  lemma {:induction false} StepsAreLatest(unit: seq<Sector>, rs: seq<Request>, os: seq<Outcome>, unit': seq<Sector>)
    requires Steps(unit, rs, os, unit')
    ensures |unit'| == |unit| && Recorded(rs, os)
    ensures forall l :: 0 <= l < |unit| ==> unit'[l] == Latest(unit, rs, os, l)
    decreases |rs|
  {
    if rs != [] {
      var n := |rs| - 1;
      var mid: seq<Sector> :| Steps(unit, rs[..n], os[..n], mid) && Step(mid, rs[n], os[n], unit');
      StepsAreLatest(unit, rs[..n], os[..n], mid);
      forall i | 0 <= i < |rs| && rs[i].Write?
        ensures os[i].done <= rs[i].count && |rs[i].data| == 256 * rs[i].count
      {
        if i < n { assert rs[i] == rs[..n][i] && os[i] == os[..n][i]; }
      }
    }
  }

  lemma ReadIsNamed(mid: seq<Sector>, r: Request, o: Outcome, unit': seq<Sector>, j: nat)
    requires Step(mid, r, o, unit') && r.Read? && j < o.done
    ensures |o.words| == 256 * o.done && r.lba + j < |mid| && Block(o.words, j) == mid[r.lba + j]
  {
    hide Flat, Block;
    BlockOfFlat(Named(mid, r.lba, o.done), j);
  }

  /** The first m requests of such a run are a run, up to some state of the unit. */
  lemma {:induction false} StepsPrefix(unit: seq<Sector>, rs: seq<Request>, os: seq<Outcome>, unit': seq<Sector>,
                                       m: nat) returns (mid: seq<Sector>)
    requires Steps(unit, rs, os, unit') && m <= |rs|
    ensures Steps(unit, rs[..m], os[..m], mid)
    decreases |rs|
  {
    if m == |rs| {
      mid := unit';
      assert rs[..m] == rs && os[..m] == os;
    } else {
      var n := |rs| - 1;
      var last: seq<Sector> :| Steps(unit, rs[..n], os[..n], last) && Step(last, rs[n], os[n], unit');
      hide Steps, Step;
      mid := StepsPrefix(unit, rs[..n], os[..n], last, m);
      assert rs[..n][..m] == rs[..m] && os[..n][..m] == os[..m];
    }
  }

  /** In such a run sector j of any read is what the most recent write before it left there. */
  lemma ReadsAreLatest(unit: seq<Sector>, rs: seq<Request>, os: seq<Outcome>, unit': seq<Sector>, i: nat, j: nat)
    requires Steps(unit, rs, os, unit') && i < |rs| && rs[i].Read? && j < os[i].done
    ensures |os[i].words| == 256 * os[i].done && rs[i].lba + j < |unit| && Recorded(rs[..i], os[..i])
    ensures Block(os[i].words, j) == Latest(unit, rs[..i], os[..i], rs[i].lba + j)
  {
    var after := StepsPrefix(unit, rs, os, unit', i + 1);
    assert rs[..i + 1][..i] == rs[..i] && os[..i + 1][..i] == os[..i];
    var mid: seq<Sector> :| Steps(unit, rs[..i], os[..i], mid) && Step(mid, rs[i], os[i], after);
    hide Steps, Step, Latest, Recorded, Block;
    StepsAreLatest(unit, rs[..i], os[..i], mid);
    ReadIsNamed(mid, rs[i], os[i], after, j);
    var l := rs[i].lba + j;
    assert mid[l] == Latest(unit, rs[..i], os[..i], l);
  }

  ghost predicate AllAccounted(rs: seq<Request>, os: seq<Outcome>, results: seq<int>) {
    |results| == |os| <= |rs| && forall i :: 0 <= i < |os| ==> Accounted(rs[i], os[i], results[i])
  }

  ghost predicate AllTrustworthy(rs: seq<Request>, os: seq<Outcome>) {
    |os| <= |rs| && forall i :: 0 <= i < |os| ==> Trustworthy(rs[i], os[i])
  }

  /** Any run of proper requests, each failing or not as the drive pleases, is a run of the plain
      sector array of unit 1 when every sector was granted with BSY clear and, if written, confirmed;
      in any case a request fails exactly when a try of it was refused, and unit 0 is untouched. */
  method Session(ch: Channel, rs: seq<Request>, lba48: bool) returns (results: seq<int>, ghost os: seq<Outcome>)
    requires ch.Valid() && forall i :: 0 <= i < |rs| ==> rs[i].Proper(lba48)
    modifies ch
    ensures ch.Valid() && ch.media[0] == old(ch.media)[0]
    ensures |os| == |rs| && ch.trace == old(ch.trace) + RunTrace(rs, os, lba48) && AllAccounted(rs, os, results)
    ensures AllTrustworthy(rs, os) ==> Steps(old(ch.media)[1], rs, os, ch.media[1])
  {
    results, os := [], [];
    ghost var unit := ch.media[1];
    hide Steps, AllAccounted, AllTrustworthy, Request.Proper, RequestTrace, RunTrace, ValidPhase;
    SessionStart(unit, rs, lba48, ch.trace);
    for i := 0 to |rs|
      invariant ch.Valid() && ch.media[0] == old(ch.media)[0]
      invariant |os| == i && ch.trace == old(ch.trace) + RunTrace(rs, os, lba48) && AllAccounted(rs, os, results)
      invariant AllTrustworthy(rs, os) ==> Steps(unit, rs[..i], os, ch.media[1])
    {
      ghost var mid, before := ch.media[1], ch.trace;
      var result, o := Perform(ch, rs[i], lba48);
      OneMore(unit, rs, os, results, o, result, mid, ch.media[1], lba48,
              old(ch.trace), before, ch.trace);
      results, os := results + [result], os + [o];
    }
    assert rs[..|rs|] == rs;
  }

  lemma SessionStart(unit: seq<Sector>, rs: seq<Request>, lba48: bool, start: seq<Event>)
    ensures AllAccounted(rs, [], []) && Steps(unit, rs[..0], [], unit)
    ensures start == start + RunTrace(rs, [], lba48)
  {
    assert rs[..0] == [];
  }

  lemma OneMore(unit: seq<Sector>, rs: seq<Request>, os: seq<Outcome>, results: seq<int>, o: Outcome, result: int,
                mid: seq<Sector>, unit': seq<Sector>, lba48: bool, start: seq<Event>, before: seq<Event>,
                now: seq<Event>)
    requires |os| < |rs| && AllAccounted(rs, os, results) && Accounted(rs[|os|], o, result)
    requires AllTrustworthy(rs, os) ==> Steps(unit, rs[..|os|], os, mid)
    requires Trustworthy(rs[|os|], o) ==> Step(mid, rs[|os|], o, unit')
    requires before == start + RunTrace(rs, os, lba48) && now == before + RequestTrace(rs[|os|], o, lba48)
    ensures AllAccounted(rs, os + [o], results + [result])
    ensures AllTrustworthy(rs, os + [o]) ==> Steps(unit, rs[..|os| + 1], os + [o], unit')
    ensures now == start + RunTrace(rs, os + [o], lba48)
  {
    hide Step, Steps, Trustworthy, Accounted, RequestTrace;
    var i, more := |os|, os + [o];
    assert more[..i] == os && more[i] == o;
    if AllTrustworthy(rs, more) {
      assert Trustworthy(rs[i], more[i]);
      assert AllTrustworthy(rs, os) by {
        forall j | 0 <= j < i ensures Trustworthy(rs[j], os[j]) { assert Trustworthy(rs[j], more[j]); }
      }
      StepsMore(unit, rs[..i], os, mid, rs[i], o, unit');
      assert rs[..i + 1] == rs[..i] + [rs[i]];
    }
  }

  lemma StepsMore(unit: seq<Sector>, rs: seq<Request>, os: seq<Outcome>, mid: seq<Sector>, r: Request, o: Outcome,
                  unit': seq<Sector>)
    requires Steps(unit, rs, os, mid) && Step(mid, r, o, unit')
    ensures Steps(unit, rs + [r], os + [o], unit')
  {
    hide Step;
    var n := |rs|;
    assert (rs + [r])[..n] == rs && (os + [o])[..n] == os && (rs + [r])[n] == r && (os + [o])[n] == o;
  }

  method Perform(ch: Channel, r: Request, lba48: bool) returns (result: int, ghost o: Outcome)
    requires ch.Valid() && r.Proper(lba48)
    modifies ch
    ensures ch.Valid() && ch.media[0] == old(ch.media)[0]
    ensures ch.trace == old(ch.trace) + RequestTrace(r, o, lba48)
    ensures Accounted(r, o, result)
    ensures Trustworthy(r, o) ==> Step(old(ch.media)[1], r, o, ch.media[1])
  {
    hide Step, Trustworthy, Accounted;
    if r.Read? {
      result, o := PerformRead(ch, r, lba48);
    } else {
      result, o := PerformWrite(ch, r, lba48);
    }
  }

  method PerformRead(ch: Channel, r: Request, lba48: bool) returns (result: int, ghost o: Outcome)
    requires ch.Valid() && r.Proper(lba48) && r.Read?
    modifies ch
    ensures ch.Valid() && ch.media == old(ch.media)
    ensures ch.trace == old(ch.trace) + RequestTrace(r, o, lba48)
    ensures Accounted(r, o, result)
    ensures Trustworthy(r, o) ==> Step(ch.media[1], r, o, ch.media[1])
  {
    var buf := new word[256 * r.count];
    ghost var blank := buf[..];
    var ret, tries, got := PioRead(ch, r.lba, r.count, buf, lba48);
    result, o := ret, Outcome(|got|, ret == 0, tries, buf[..256 * |got|]);
    FilledIsFlat(blank, got);
    hide Filled, Flat, RightIfClean, Tried, Trustworthy, Step, Faithful, Trace;
    assert o.words == Flat(got);
    if Trustworthy(r, o) { ReadStep(ch.media[1], r, lba48, o, got); }
  }

  lemma ReadStep(unit: seq<Sector>, r: Request, lba48: bool, o: Outcome, got: seq<Sector>)
    requires r.Proper(lba48) && r.Read? && RightIfClean(unit, r.lba, lba48, o.tries, got)
    requires o.done == |got| && o.words == Flat(got) && (o.ok <==> o.done == r.count)
    requires Tried(o.tries, o.done, r.count, false) && Trustworthy(r, o)
    ensures Step(unit, r, o, unit)
  {
    hide Hit, Address, Flat, RightIfClean, Clean, Tried;
    TriedBounds(o.tries, o.done, r.count, false);
    FaithfulPart(r.lba, r.count, o.done, lba48);
    hide Faithful;
    ReceivedIsNamed(unit, r.lba, lba48, o.tries, got);
  }

  lemma TriedBounds(tries: seq<Try>, done: nat, count: nat, write: bool)
    requires Tried(tries, done, count, write)
    ensures done <= |tries| <= count
  {
  }

  method PerformWrite(ch: Channel, r: Request, lba48: bool) returns (result: int, ghost o: Outcome)
    requires ch.Valid() && r.Proper(lba48) && r.Write?
    modifies ch
    ensures ch.Valid() && ch.media[0] == old(ch.media)[0]
    ensures ch.trace == old(ch.trace) + RequestTrace(r, o, lba48)
    ensures Accounted(r, o, result)
    ensures Trustworthy(r, o) ==> Step(old(ch.media)[1], r, o, ch.media[1])
  {
    ghost var unit := ch.media[1];
    var buf := new word[256 * r.count];
    forall i | 0 <= i < 256 * r.count { buf[i] := r.data[i]; }
    assert buf[..] == r.data;
    var ret, tries, landed := PioWrite(ch, r.lba, r.count, buf, lba48);
    result, o := ret, Outcome(|landed|, ret == 0, tries, []);
    hide Written, Overwrite, Hit, Address, Tried, Clean, Confirmed, Trace;
    assert |landed| <= r.count && |landed| <= |tries| by { TriedBounds(tries, |landed|, r.count, true); }
    if Trustworthy(r, o) {
      forall k | 0 <= k < |landed| ensures landed[k] {
        ConfirmedLanded(tries[k], landed[k]);
      }
      WrittenIsOverwrite(unit, r.data, r.lba, lba48, landed);
    }
  }

  /** A sector that was granted with BSY clear and confirmed is stored. */
  lemma ConfirmedLanded(t: Try, landed: bool)
    requires Told(t, landed) && Clean(t.drq) && Confirmed(t.flush)
    ensures landed
  {
  }
}
