/** The character ring of kernel/keyboard.c between the interrupt handler and the shell.
    `keyboard_getchar` is cut at its accesses to shared memory, so that an interrupt can fall
    between any two of them; the handler itself runs with interrupts off. */
module Keyboard {
  import opened Bytes
  import opened Scancode

  const SIZE: nat := 256

  /** Number of slots from tail up to head, going round. */
  function Count(head: nat, tail: nat): (n: nat)
    requires head < SIZE && tail < SIZE
    ensures n < SIZE
  {
    if tail <= head then head - tail else head + SIZE - tail
  }

  /** Position i places after tail, going round. */
  function Place(tail: nat, i: nat): (p: nat)
    requires tail < SIZE && i < SIZE
    ensures p < SIZE
  {
    if tail + i < SIZE then tail + i else tail + i - SIZE
  }

  ghost function Slice(buf: seq<byte>, tail: nat, n: nat): (s: seq<byte>)
    requires |buf| == SIZE && tail < SIZE && n <= SIZE
    ensures |s| == n
    ensures forall i :: 0 <= i < n ==> s[i] == buf[Place(tail, i)]
  {
    seq(n, i requires 0 <= i < n => buf[Place(tail, i)])
  }

  /** Adding one and going round. */
  lemma NextSlot(x: nat)
    requires x < SIZE
    ensures (x + 1) % SIZE == Place(x, 1)
  {
  }

  lemma SlicePush(buf: seq<byte>, head: nat, tail: nat, c: byte)
    requires |buf| == SIZE && head < SIZE && tail < SIZE
    requires Place(head, 1) != tail
    ensures Count(Place(head, 1), tail) == Count(head, tail) + 1
    ensures Slice(buf[head := c], tail, Count(head, tail) + 1) == Slice(buf, tail, Count(head, tail)) + [c]
  {
  }

  lemma SlicePop(buf: seq<byte>, head: nat, tail: nat)
    requires |buf| == SIZE && head < SIZE && tail < SIZE && head != tail
    ensures Count(head, tail) == 1 + Count(head, Place(tail, 1))
    ensures Slice(buf, tail, Count(head, tail)) ==
            [buf[tail]] + Slice(buf, Place(tail, 1), Count(head, Place(tail, 1)))
  {
  }

  /** The guard of the push fails exactly when 255 slots are pending. */
  lemma FullExactly(head: nat, tail: nat)
    requires head < SIZE && tail < SIZE
    ensures (head + 1) % SIZE == tail <==> Count(head, tail) == SIZE - 1
    ensures head == tail <==> Count(head, tail) == 0
  {
    NextSlot(head);
  }

  lemma EmptyExactly(head: nat, tail: nat)
    requires head < SIZE && tail < SIZE
    ensures head == tail <==> Count(head, tail) == 0
  {
  }

  /** Where the shell is inside keyboard_getchar: about to read head in keyboard_has_key, about
      to read it again in kb_buffer_pop, about to load the slot, about to store the tail. */
  datatype Pc = Polling | Checking | Loading | Storing(c: byte)

  /** Steps before the one that delivers, when something is pending. */
  function Remaining(pc: Pc): nat {
    match pc
    case Polling => 3
    case Checking => 2
    case Loading => 1
    case Storing(_) => 0
  }

  /** The flags are those of the bytes read so far, and what was accepted is part of the characters
      they spell, in order, the dropped ones making up the difference. */
  ghost predicate Tally(codes: seq<byte>, mods: Mods, accepted: seq<byte>, dropped: nat) {
    && mods == Flags(NO_MODS, codes)
    && |accepted| + dropped == |Characters(NO_MODS, codes)|
    && Within(accepted, Characters(NO_MODS, codes))
  }

  /** The queue and its accounts. */
  datatype Books = Books(pending: seq<byte>, accepted: seq<byte>, dropped: nat) {
    /** A character joins the end of the queue, or is dropped exactly when 255 are pending. */
    function Arrive(c: Option<byte>): (r: Books)
      ensures r.dropped != dropped ==> |pending| >= 255 && r.pending == pending && r.accepted == accepted
    {
      if c.None? then this
      else if |pending| < SIZE - 1 then Books(pending + [c.value], accepted + [c.value], dropped)
      else Books(pending, accepted, dropped + 1)
    }
  }

  /** One more byte: its character, if any, may be accepted or dropped. */
  lemma TallyNext(codes: seq<byte>, mods: Mods, b: Books, code: byte)
    requires Tally(codes, mods, b.accepted, b.dropped)
    ensures var (m, c) := Decode(mods, code);
            Tally(codes + [code], m, b.Arrive(c).accepted, b.Arrive(c).dropped)
  {
    DecodeSnoc(NO_MODS, codes, code);
    var before := Characters(NO_MODS, codes);
    assert before + [] == before;
    if Decode(mods, code).1.Some? { WithinLast(b.accepted, before, Decode(mods, code).1.value); }
    hide Decode, Flags, Characters, Within;
  }

  class Ring {
    const buffer: array<byte>
    var head: nat
    var tail: nat
    var mods: Mods
    var pc: Pc

    ghost var codes: seq<byte>      // every byte the handler has read
    ghost var accepted: seq<byte>   // every character pushed, in order
    ghost var delivered: seq<byte>  // every character handed to the shell, in order
    ghost var dropped: nat          // characters lost to a full ring

    ghost predicate InBounds()
      reads this`head, this`tail
    {
      buffer.Length == SIZE && head < SIZE && tail < SIZE
    }

    ghost function Pending(): seq<byte>
      requires InBounds()
      reads this`head, this`tail, buffer
    {
      Slice(buffer[..], tail, Count(head, tail))
    }

    /** Steps of the shell until everything pending is delivered, at most. */
    ghost function Distance(): nat
      requires InBounds()
      reads this`head, this`tail, this`pc, buffer
    {
      4 * |Pending()| + Remaining(pc)
    }

    /** The ring holds what was accepted and not yet delivered, and what the shell has seen of it in
        the middle of getchar still stands. */
    ghost predicate Queued()
      requires InBounds()
      reads this`head, this`tail, this`pc, this`accepted, this`delivered, buffer
    {
      && delivered + Pending() == accepted
      && (!pc.Polling? ==> head != tail)
      && (pc.Storing? ==> pc.c == buffer[tail])
    }

    ghost predicate Valid()
      reads this, buffer
    {
      InBounds() && Queued() && Tally(codes, mods, accepted, dropped)
    }

    constructor ()
      ensures Valid() && fresh(buffer)
      ensures codes == [] && accepted == [] && delivered == [] && dropped == 0
    {
      buffer := new byte[SIZE];
      head, tail, mods, pc := 0, 0, NO_MODS, Polling;
      codes, accepted, delivered, dropped := [], [], [], 0;
    }

    /** kb_buffer_push. */
    method Push(c: byte)
      requires InBounds()
      modifies this`head, buffer
      ensures InBounds()
      ensures old(|Pending()|) < SIZE - 1 ==> Pending() == old(Pending()) + [c]
      ensures old(|Pending()|) == SIZE - 1 ==> head == old(head) && Pending() == old(Pending())
      ensures old(head) != tail ==> head != tail && buffer[tail] == old(buffer[tail])
    {
      FullExactly(head, tail);
      NextSlot(head);
      if Place(head, 1) != tail { SlicePush(buffer[..], head, tail, c); }
      var next := (head + 1) % SIZE;
      if next != tail {
        ghost var was := buffer[..];
        buffer[head] := c;
        assert buffer[..] == was[head := c];
        head := next;
      }
    }

    /** keyboard_handler on one byte, wherever the shell has been interrupted: a decoded
        character joins the end of the queue, or is dropped exactly when 255 are pending, and
        nothing pending is lost or changed. */
    method Interrupt(code: byte)
      requires Valid()
      modifies this, buffer
      ensures Valid() && pc == old(pc)
      ensures codes == old(codes) + [code] && delivered == old(delivered)
      ensures dropped != old(dropped) ==> old(|Pending()|) == 255
      ensures var before := Books(old(Pending()), old(accepted), old(dropped));
              Books(Pending(), accepted, dropped) == before.Arrive(Decode(old(mods), code).1)
    {
      hide Slice, Count, Decode, Tally, IsShift, Books.Arrive;
      TallyNext(codes, mods, Books(Pending(), accepted, dropped), code);
      var c := DecodeInPlace(code);
      codes := codes + [code];
      Account(c);
    }

    /** Queue a decoded character, if there is one. */
    method Account(c: byte)
      requires InBounds() && Queued()
      modifies this`head, this`accepted, this`dropped, buffer
      ensures InBounds() && Queued()
      ensures var before := Books(old(Pending()), old(accepted), old(dropped));
              Books(Pending(), accepted, dropped) == before.Arrive(if c != 0 then Some(c) else None)
    {
      hide Slice, Count, Queued;
      if c != 0 { Enqueue(c); }
    }

    /** Push a character, and keep account of it. */
    method Enqueue(c: byte)
      requires InBounds() && Queued()
      modifies this`head, this`accepted, this`dropped, buffer
      ensures InBounds() && Queued()
      ensures var before := Books(old(Pending()), old(accepted), old(dropped));
              Books(Pending(), accepted, dropped) == before.Arrive(Some(c))
    {
      hide Slice, Place;
      if Count(head, tail) == SIZE - 1 {
        dropped := dropped + 1;
      } else {
        accepted := accepted + [c];
      }
      Push(c);
    }

    /** The flag updates and table lookup of the handler; 0 for "no character". The test for
        0xE0 comes after the release branch has taken every code with the top bit set. */
    method DecodeInPlace(code: byte) returns (c: byte)
      modifies this`mods
      ensures mods == Decode(old(mods), code).0
      ensures Decode(old(mods), code).1 == if c != 0 then Some(c) else None
      ensures mods.shift == (if IsShift(code) then code < 0x80 else old(mods).shift)
      ensures mods.caps == (old(mods).caps != (code == CAPSLOCK)) && !mods.extended
      ensures (if c != 0 then Some(c) else None) ==
              if code < 0x80 then KeyOf(Legend(code), old(mods).shift != old(mods).caps) else None
    {
      DecodeFlags(mods, code);
      DecodeIsKey(mods, code);
      hide IsShift, KeyOf, Legend;
      if code >= 0x80 {
        Release(code - 0x80);
        c := 0;
      } else {
        c := Press(code);
      }
    }

    method Release(make: byte)
      requires make < 0x80
      modifies this`mods
      ensures mods == Released(old(mods), make).(extended := false)
    {
      if make == LSHIFT || make == RSHIFT {
        mods := mods.(shift := false);
      } else if make == LCTRL {
        mods := mods.(ctrl := false);
      } else if make == LALT {
        mods := mods.(alt := false);
      }
      mods := mods.(extended := false);
    }

    method Press(code: byte) returns (c: byte)
      requires code < 0x80
      modifies this`mods
      ensures mods == Decode(old(mods), code).0 && !mods.extended
      ensures Decode(old(mods), code).1 == if c != 0 then Some(c) else None
    {
      c := 0;
      if code == LSHIFT || code == RSHIFT {
        mods := mods.(shift := true, extended := false);
      } else if code == LCTRL {
        mods := mods.(ctrl := true, extended := false);
      } else if code == LALT {
        mods := mods.(alt := true, extended := false);
      } else if code == CAPSLOCK {
        mods := mods.(caps := !mods.caps, extended := false);
      } else {
        if mods.shift != mods.caps {
          c := Lookup(SHIFT_TABLE, code);
        } else {
          c := Lookup(PLAIN_TABLE, code);
        }
        mods := mods.(extended := false);
      }
    }

    /** One shared-memory access of keyboard_getchar. The character comes out with the store of
        the tail; the zero of an empty pop never does. */
    method Step() returns (out: Option<byte>)
      requires Valid()
      modifies this`tail, this`pc, this`delivered
      ensures Valid()
      ensures delivered == old(delivered) + ToSeq(out)
      ensures out.Some? <==> old(pc).Storing?
      ensures old(Pending()) == ToSeq(out) + Pending()
      ensures old(|Pending()|) > 0 ==> Distance() < old(Distance())
    {
      hide Count, Place, Slice, Tally;
      EmptyExactly(head, tail);
      out := None;
      match pc
      case Polling =>
        if head != tail { pc := Checking; }
      case Checking =>
        if head == tail {
          assert false;  // the pop never returns its zero
        }
        pc := Loading;
      case Loading =>
        pc := Storing(buffer[tail]);
      case Storing(c) =>
        Deliver();
        out := Some(c);
    }

    /** The store of the tail: the oldest pending character is delivered. */
    method Deliver()
      requires Valid() && pc.Storing?
      modifies this`tail, this`pc, this`delivered
      ensures Valid() && pc == Polling
      ensures delivered == old(delivered) + [old(pc.c)]
      ensures old(Pending()) == [old(pc.c)] + Pending()
    {
      hide Count, Place, Slice, Tally;
      delivered := delivered + [pc.c];
      DropFirst();
      pc := Polling;
    }

    /** Move the tail to the next slot. */
    method DropFirst()
      requires InBounds() && head != tail
      modifies this`tail
      ensures InBounds()
      ensures old(Pending()) == [buffer[old(tail)]] + Pending()
    {
      NextSlot(tail);
      SlicePop(buffer[..], head, tail);
      tail := (tail + 1) % SIZE;
    }
  }
}
