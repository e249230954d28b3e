/** The mouse protocol: three-byte packets, and the events a stream of them means. */
module MouseStream {

  datatype Event = Moved(dx: int, dy: int) | Down(button: int) | Up(button: int)

  const BUTTONS := 3

  /** Bit i of a byte, `b & (1 << i)`. */
  predicate Bit(b: int, i: nat)
    decreases i, b
  {
    if i == 0 then b % 2 == 1 else Bit(b / 2, i - 1)
  }

  /** Conversion to the signed `char`. */
  function I8(b: int): int {
    if b % 256 < 128 then b % 256 else b % 256 - 256
  }

  /** Button events from button i + 1 on, when the button byte changes from `before` to `now`. */
  function ButtonEvents(before: int, now: int, i: nat): seq<Event>
    requires i <= BUTTONS
    decreases BUTTONS - i, before, now
  {
    if i == BUTTONS then []
    else
      (if Bit(now, i) == Bit(before, i) then [] else [if Bit(before, i) then Up(i + 1) else Down(i + 1)])
      + ButtonEvents(before, now, i + 1)
  }

  function MoveEvents(x: int, y: int): seq<Event> {
    if x != 0 || y != 0 then [Moved(I8(x), -I8(y))] else []
  }

  /** What one complete packet means. */
  function PacketEvents(buttons: int, b0: int, b1: int, b2: int): seq<Event> {
    MoveEvents(b1, b2) + ButtonEvents(buttons, b0, 0)
  }

  /** Events of a stream read packet by packet; bytes of an incomplete packet mean nothing yet. */
  function Events(bytes: seq<int>, buttons: int): seq<Event>
    decreases |bytes|
  {
    if |bytes| < 3 then []
    else PacketEvents(buttons, bytes[0], bytes[1], bytes[2]) + Events(bytes[3..], bytes[0])
  }

  /** The button byte of the last complete packet. */
  function LastButtons(bytes: seq<int>, buttons: int): int
    decreases |bytes|
  {
    if |bytes| < 3 then buttons else LastButtons(bytes[3..], bytes[0])
  }

  // ----- the driver, byte by byte -----

  datatype Driver = Driver(buffer: seq<int>, offset: int, buttons: int)

  ghost predicate Ready(d: Driver) {
    |d.buffer| == 3 && 0 <= d.offset < 3
  }

  /** Does the controller say that the waiting byte is the mouse's? */
  predicate FromMouse(status: int) {
    Bit(status, 5)
  }

  /** The state after one interrupt, with a handler installed. */
  function Step(d: Driver, status: int, data: int): (r: Driver)
    requires Ready(d)
    ensures Ready(r)
  {
    if !FromMouse(status) then d
    else if d.offset < 2 then d.(buffer := d.buffer[d.offset := data], offset := d.offset + 1)
    else Driver(d.buffer[2 := data], 0, d.buffer[0])
  }

  /** The handler calls made during that interrupt. */
  function Emitted(d: Driver, status: int, data: int): seq<Event>
    requires Ready(d)
  {
    if FromMouse(status) && d.offset == 2 then PacketEvents(d.buttons, d.buffer[0], d.buffer[1], data) else []
  }

  datatype Input = Input(status: int, data: int)

  /** All handler calls of a run. */
  function RunEvents(d: Driver, inputs: seq<Input>): seq<Event>
    requires Ready(d)
    decreases |inputs|
  {
    if inputs == [] then []
    else
      Emitted(d, inputs[0].status, inputs[0].data)
      + RunEvents(Step(d, inputs[0].status, inputs[0].data), inputs[1..])
  }

  /** The data bytes that the status says are the mouse's. */
  function Accepted(inputs: seq<Input>): seq<int> {
    if inputs == [] then []
    else (if FromMouse(inputs[0].status) then [inputs[0].data] else []) + Accepted(inputs[1..])
  }

  /** The bytes of the packet being assembled. */
  function Pending(d: Driver): seq<int>
    requires Ready(d)
  {
    d.buffer[..d.offset]
  }

  /** A mouse byte moves from the stream to the buffer, or completes a packet and becomes its events. */
  lemma ByteMeansEvents(d: Driver, status: int, data: int, rest: seq<int>)
    requires Ready(d) && FromMouse(status)
    ensures var r := Step(d, status, data);
            Events(Pending(d) + ([data] + rest), d.buttons) ==
            Emitted(d, status, data) + Events(Pending(r) + rest, r.buttons)
  {
    var r, all := Step(d, status, data), Pending(d) + ([data] + rest);
    if d.offset < 2 {
      assert Pending(r) + rest == all;
    } else {
      assert all[0] == d.buffer[0] && all[1] == d.buffer[1] && all[2] == data;
      assert all[3..] == rest && Pending(r) + rest == rest;
    }
  }

  /** From any state, the driver emits what the pending bytes and all further mouse bytes mean. */
  lemma {:induction false} RunMeansEvents(d: Driver, inputs: seq<Input>)
    requires Ready(d)
    ensures RunEvents(d, inputs) == Events(Pending(d) + Accepted(inputs), d.buttons)
    decreases |inputs|
  {
    if inputs != [] {
      var i := inputs[0];
      RunMeansEvents(Step(d, i.status, i.data), inputs[1..]);
      if FromMouse(i.status) {
        ByteMeansEvents(d, i.status, i.data, Accepted(inputs[1..]));
      } else {
        assert Accepted(inputs) == Accepted(inputs[1..]);
      }
    }
  }

  /** The byte-at-a-time driver refines the packet reader, whatever other interrupts are mixed in. */
  lemma DriverRefinesPackets(buffer: seq<int>, inputs: seq<Input>)
    requires |buffer| == 3
    ensures RunEvents(Driver(buffer, 0, 0), inputs) == Events(Accepted(inputs), 0)
  {
    RunMeansEvents(Driver(buffer, 0, 0), inputs);
    assert buffer[..0] + Accepted(inputs) == Accepted(inputs);
  }

  // ----- Down and Up alternate -----

  /** Events of one button alternate, starting with Up if it is held and with Down if not. */
  ghost predicate Alternates(es: seq<Event>, button: int, held: bool)
    decreases |es|
  {
    if es == [] then true
    else if es[0] == Down(button) then !held && Alternates(es[1..], button, true)
    else if es[0] == Up(button) then held && Alternates(es[1..], button, false)
    else Alternates(es[1..], button, held)
  }

  /** Whether the button is held after the events. */
  ghost function HeldAfter(es: seq<Event>, button: int, held: bool): bool
    decreases |es|
  {
    if es == [] then held
    else HeldAfter(es[1..], button, if es[0] == Down(button) then true else if es[0] == Up(button) then false else held)
  }

  lemma {:induction false} AlternatesConcat(a: seq<Event>, b: seq<Event>, button: int, held: bool)
    ensures HeldAfter(a + b, button, held) == HeldAfter(b, button, HeldAfter(a, button, held))
    ensures Alternates(a + b, button, held) <==>
            Alternates(a, button, held) && Alternates(b, button, HeldAfter(a, button, held))
    decreases |a|
  {
    if a == [] {
      assert a + b == b;
    } else {
      assert (a + b)[1..] == a[1..] + b;
      AlternatesConcat(a[1..], b, button,
                       if a[0] == Down(button) then true else if a[0] == Up(button) then false else held);
    }
  }

  lemma {:induction false} ButtonEventsAlternate(before: int, now: int, i: nat, button: int)
    requires i <= BUTTONS && 1 <= button <= BUTTONS
    ensures var es, held := ButtonEvents(before, now, i), Bit(before, button - 1);
            && Alternates(es, button, held)
            && HeldAfter(es, button, held) == if i < button then Bit(now, button - 1) else held
    decreases BUTTONS - i
  {
    if i < BUTTONS {
      ButtonEventsAlternate(before, now, i + 1, button);
      var es := ButtonEvents(before, now, i);
      if Bit(now, i) != Bit(before, i) {
        assert es[1..] == ButtonEvents(before, now, i + 1);
        if i + 1 == button {
          OtherButtons(before, now, i + 1, button, Bit(now, i));
        }
      } else {
        assert es == ButtonEvents(before, now, i + 1);
      }
    }
  }

  lemma {:induction false} OtherButtons(before: int, now: int, i: nat, button: int, held: bool)
    requires button <= i <= BUTTONS
    ensures Alternates(ButtonEvents(before, now, i), button, held)
    ensures HeldAfter(ButtonEvents(before, now, i), button, held) == held
    decreases BUTTONS - i
  {
    if i < BUTTONS {
      OtherButtons(before, now, i + 1, button, held);
      var es := ButtonEvents(before, now, i);
      if Bit(now, i) != Bit(before, i) {
        assert es[1..] == ButtonEvents(before, now, i + 1);
      } else {
        assert es == ButtonEvents(before, now, i + 1);
      }
    }
  }

  /** Each button goes down and up in strict alternation, and is reported held as the last packet says. */
  lemma {:induction false} EventsAlternate(bytes: seq<int>, buttons: int, button: int)
    requires 1 <= button <= BUTTONS
    ensures Alternates(Events(bytes, buttons), button, Bit(buttons, button - 1))
    ensures HeldAfter(Events(bytes, buttons), button, Bit(buttons, button - 1)) ==
            Bit(LastButtons(bytes, buttons), button - 1)
    decreases |bytes|
  {
    if |bytes| >= 3 {
      var moves, clicks, rest := MoveEvents(bytes[1], bytes[2]), ButtonEvents(buttons, bytes[0], 0), Events(bytes[3..], bytes[0]);
      ButtonEventsAlternate(buttons, bytes[0], 0, button);
      EventsAlternate(bytes[3..], bytes[0], button);
      AlternatesConcat(moves, clicks, button, Bit(buttons, button - 1));
      AlternatesConcat(moves + clicks, rest, button, Bit(buttons, button - 1));
    }
  }

  /** Over any stream of interrupts, every button's events alternate and start with Down. */
  lemma ButtonsAlternate(buffer: seq<int>, inputs: seq<Input>, button: int)
    requires |buffer| == 3 && 1 <= button <= BUTTONS
    ensures Alternates(RunEvents(Driver(buffer, 0, 0), inputs), button, false)
    ensures HeldAfter(RunEvents(Driver(buffer, 0, 0), inputs), button, false) ==
            Bit(LastButtons(Accepted(inputs), 0), button - 1)
  {
    DriverRefinesPackets(buffer, inputs);
    EventsAlternate(Accepted(inputs), 0, button);
    NoBitsInZero(button - 1);
  }

  lemma {:induction false} NoBitsInZero(i: nat)
    ensures !Bit(0, i)
  {
    if i > 0 {
      NoBitsInZero(i - 1);
    }
  }

  // ----- what is reported, in terms of the bytes -----

  predicate IsByte(b: int) {
    0 <= b < 0x100
  }

  /** A byte as a signed number. */
  function Signed(b: int): int {
    if b < 0x80 then b else b - 0x100
  }

  /** The bits of the three buttons, 1 for the left one, 2 for the right one and 4 for the middle one. */
  predicate Pressed(b: int, button: int) {
    if button == 1 then b % 2 == 1 else if button == 2 then b / 2 % 2 == 1 else b / 4 % 2 == 1
  }

  lemma BitIsPressed(b: int, button: int)
    requires IsByte(b) && 1 <= button <= 3
    ensures Bit(b, button - 1) <==> Pressed(b, button)
  {
    if button == 2 {
      assert Bit(b, 1) == Bit(b / 2, 0);
    } else if button == 3 {
      assert Bit(b, 2) == Bit(b / 2, 1) == Bit(b / 2 / 2, 0);
      assert b / 2 / 2 == b / 4;
    }
  }

  /** A waiting byte is the mouse's if and only if bit 5 of the status, worth 32, is set. */
  lemma FromMouseIff(status: int)
    requires IsByte(status)
    ensures FromMouse(status) <==> status / 32 % 2 == 1
  {
    var h := status / 8;
    assert Bit(status, 5) == Bit(status / 2, 4) == Bit(status / 2 / 2, 3) == Bit(status / 2 / 2 / 2, 2);
    assert status / 2 / 2 / 2 == h;
    assert Bit(h, 2) == Bit(h / 2, 1) == Bit(h / 2 / 2, 0);
    assert h / 2 / 2 == status / 32;
  }

  /** The data bytes that came with bit 5 of the status set. */
  function MouseBytes(inputs: seq<Input>): seq<int> {
    if inputs == [] then []
    else (if inputs[0].status / 32 % 2 == 1 then [inputs[0].data] else []) + MouseBytes(inputs[1..])
  }

  ghost predicate AllBytes(inputs: seq<Input>) {
    forall i :: 0 <= i < |inputs| ==> IsByte(inputs[i].status) && IsByte(inputs[i].data)
  }

  lemma {:induction false} AcceptedAreMouseBytes(inputs: seq<Input>)
    requires AllBytes(inputs)
    ensures Accepted(inputs) == MouseBytes(inputs)
    ensures forall k :: 0 <= k < |MouseBytes(inputs)| ==> IsByte(MouseBytes(inputs)[k])
    decreases |inputs|
  {
    if inputs != [] {
      FromMouseIff(inputs[0].status);
      AcceptedAreMouseBytes(inputs[1..]);
    }
  }

  /** Button events only, of buttons above i, lowest button first. */
  ghost predicate InOrder(es: seq<Event>, i: nat) {
    && (forall k :: 0 <= k < |es| ==> !es[k].Moved? && i < es[k].button <= 3)
    && (forall j, k :: 0 <= j < k < |es| ==> es[j].button < es[k].button)
  }

  /** The button goes down if its bit is newly set and up if it is newly clear. */
  ghost predicate Reports(es: seq<Event>, before: int, now: int, button: int) {
    && (Down(button) in es <==> !Pressed(before, button) && Pressed(now, button))
    && (Up(button) in es <==> Pressed(before, button) && !Pressed(now, button))
  }

  /** The events of the buttons above i, lowest first, and no others. */
  ghost predicate Exact(es: seq<Event>, before: int, now: int, i: nat) {
    InOrder(es, i) && forall b :: i < b <= 3 ==> Reports(es, before, now, b)
  }

  lemma SameBit(es: seq<Event>, before: int, now: int, i: nat)
    requires Exact(es, before, now, i + 1) && i < 3 && (Pressed(before, i + 1) <==> Pressed(now, i + 1))
    ensures Exact(es, before, now, i)
  {
    assert Down(i + 1) !in es && Up(i + 1) !in es;
  }

  lemma NewBit(es: seq<Event>, before: int, now: int, i: nat)
    requires Exact(es, before, now, i + 1) && i < 3 && (Pressed(before, i + 1) <==> !Pressed(now, i + 1))
    ensures Exact([if Pressed(before, i + 1) then Up(i + 1) else Down(i + 1)] + es, before, now, i)
  {
    assert Down(i + 1) !in es && Up(i + 1) !in es;
    var all := [if Pressed(before, i + 1) then Up(i + 1) else Down(i + 1)] + es;
    forall b | i + 1 < b <= 3
      ensures Reports(all, before, now, b)
    {
      assert Reports(es, before, now, b);
    }
  }

  lemma {:induction false} ButtonEventsExact(before: int, now: int, i: nat) returns (es: seq<Event>)
    requires IsByte(before) && IsByte(now) && i <= BUTTONS
    ensures es == ButtonEvents(before, now, i) && Exact(es, before, now, i)
    decreases BUTTONS - i
  {
    if i == BUTTONS {
      es := [];
    } else {
      var rest := ButtonEventsExact(before, now, i + 1);
      FirstButton(before, now, i, rest);
      if Pressed(before, i + 1) == Pressed(now, i + 1) {
        SameBit(rest, before, now, i);
        es := rest;
      } else {
        NewBit(rest, before, now, i);
        es := [if Pressed(before, i + 1) then Up(i + 1) else Down(i + 1)] + rest;
      }
    }
  }

  lemma FirstButton(before: int, now: int, i: nat, rest: seq<Event>)
    requires IsByte(before) && IsByte(now) && i < BUTTONS && rest == ButtonEvents(before, now, i + 1)
    ensures ButtonEvents(before, now, i) ==
            if Pressed(before, i + 1) == Pressed(now, i + 1) then rest
            else [if Pressed(before, i + 1) then Up(i + 1) else Down(i + 1)] + rest
  {
    BitIsPressed(before, i + 1);
    BitIsPressed(now, i + 1);
  }

  /**
   One packet means: first, if either of the last two bytes is not 0, the move by the second byte to the
   right and by the third one up, both signed; then the button events of the first byte.
   */
  lemma PacketExact(buttons: int, b0: int, b1: int, b2: int)
    requires IsByte(buttons) && IsByte(b0) && IsByte(b1) && IsByte(b2)
    ensures var es := PacketEvents(buttons, b0, b1, b2);
            var moves := if b1 == 0 && b2 == 0 then 0 else 1;
            && moves <= |es|
            && (moves == 1 ==> es[0] == Moved(Signed(b1), -Signed(b2)))
            && InOrder(es[moves..], 0)
            && (forall b :: 1 <= b <= 3 ==> Reports(es, buttons, b0, b))
  {
    var clicks := ButtonEventsExact(buttons, b0, 0);
    var es := PacketEvents(buttons, b0, b1, b2);
    assert es[if b1 == 0 && b2 == 0 then 0 else 1..] == clicks;
    forall b | 1 <= b <= 3
      ensures Reports(es, buttons, b0, b)
    {
      assert Reports(clicks, buttons, b0, b);
    }
  }

  function SumX(es: seq<Event>): int {
    if es == [] then 0 else (if es[0].Moved? then es[0].dx else 0) + SumX(es[1..])
  }

  function SumY(es: seq<Event>): int {
    if es == [] then 0 else (if es[0].Moved? then es[0].dy else 0) + SumY(es[1..])
  }

  function MoveCount(es: seq<Event>): nat {
    if es == [] then 0 else (if es[0].Moved? then 1 else 0) + MoveCount(es[1..])
  }

  lemma {:induction false} SumsConcat(a: seq<Event>, b: seq<Event>)
    ensures SumX(a + b) == SumX(a) + SumX(b) && SumY(a + b) == SumY(a) + SumY(b)
    ensures MoveCount(a + b) == MoveCount(a) + MoveCount(b)
    decreases |a|
  {
    if a == [] {
      assert a + b == b;
    } else {
      assert (a + b)[1..] == a[1..] + b;
      SumsConcat(a[1..], b);
    }
  }

  lemma {:induction false} NoMoves(es: seq<Event>)
    requires forall k :: 0 <= k < |es| ==> !es[k].Moved?
    ensures SumX(es) == 0 && SumY(es) == 0 && MoveCount(es) == 0
    decreases |es|
  {
    if es != [] {
      NoMoves(es[1..]);
    }
  }

  /** The n-th byte of every complete packet, read as a signed number, summed up. */
  function SumOfBytes(bytes: seq<int>, n: nat): int
    requires n < 3
    decreases |bytes|
  {
    if |bytes| < 3 then 0 else (if bytes[n] < 0x80 then bytes[n] else bytes[n] - 0x100) + SumOfBytes(bytes[3..], n)
  }

  /** The complete packets that carry a movement. */
  function MovingPackets(bytes: seq<int>): nat
    decreases |bytes|
  {
    if |bytes| < 3 then 0 else (if bytes[1] == 0 && bytes[2] == 0 then 0 else 1) + MovingPackets(bytes[3..])
  }

  lemma PacketMovement(buttons: int, b0: int, b1: int, b2: int)
    requires IsByte(buttons) && IsByte(b0) && IsByte(b1) && IsByte(b2)
    ensures var es := PacketEvents(buttons, b0, b1, b2);
            && SumX(es) == Signed(b1) && SumY(es) == -Signed(b2)
            && MoveCount(es) == if b1 == 0 && b2 == 0 then 0 else 1
  {
    PacketExact(buttons, b0, b1, b2);
    NoMoves(PacketEvents(buttons, b0, b1, b2)[if b1 == 0 && b2 == 0 then 0 else 1..]);
  }

  lemma {:induction false} StreamMovement(bytes: seq<int>, buttons: int)
    requires IsByte(buttons) && forall k :: 0 <= k < |bytes| ==> IsByte(bytes[k])
    ensures SumX(Events(bytes, buttons)) == SumOfBytes(bytes, 1)
    ensures SumY(Events(bytes, buttons)) == -SumOfBytes(bytes, 2)
    ensures MoveCount(Events(bytes, buttons)) == MovingPackets(bytes)
    decreases |bytes|
  {
    if |bytes| >= 3 {
      StreamMovement(bytes[3..], bytes[0]);
      PacketMovement(buttons, bytes[0], bytes[1], bytes[2]);
      SumsConcat(PacketEvents(buttons, bytes[0], bytes[1], bytes[2]), Events(bytes[3..], bytes[0]));
    }
  }

  /**
   Movement is conserved: over any stream of interrupts the moves reported add up to the signed second
   bytes of the complete packets to the right and to minus their third bytes down, in one move for each
   packet that carries a movement.
   */
  lemma MovementConserved(buffer: seq<int>, inputs: seq<Input>)
    requires |buffer| == 3 && AllBytes(inputs)
    ensures var es, bytes := RunEvents(Driver(buffer, 0, 0), inputs), MouseBytes(inputs);
            && SumX(es) == SumOfBytes(bytes, 1) && SumY(es) == -SumOfBytes(bytes, 2)
            && MoveCount(es) == MovingPackets(bytes)
  {
    AcceptedAreMouseBytes(inputs);
    DriverRefinesPackets(buffer, inputs);
    StreamMovement(MouseBytes(inputs), 0);
  }
}
