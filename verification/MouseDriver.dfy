/** The mouse driver: a three-byte buffer filled one interrupt at a time. */
module MouseDriver {
  import opened MouseStream

  class MouseDriver {
    const buffer: array<int>
    const hasHandler: bool
    var offset: int
    var buttons: int
    /** The calls made to the handler, in order. */
    var events: seq<Event>

    function View(): Driver
      reads this, buffer
    {
      Driver(buffer[..], offset, buttons)
    }

    ghost predicate Valid()
      reads this, buffer
    {
      Ready(View())
    }

    /** The buffer starts as whatever is in memory. */
    constructor (hasHandler: bool, garbage: int)
      ensures Valid() && fresh(buffer) && this.hasHandler == hasHandler
    {
      buffer := new int[3](_ => garbage);
      this.hasHandler := hasHandler;
      offset, buttons, events := 0, 0, [];
    }

    method Activate()
      requires Valid()
      modifies this`offset, this`buttons
      ensures Valid() && View() == old(View()).(offset := 0, buttons := 0)
    {
      offset := 0;
      buttons := 0;
    }

    /** `status` and `data` are what the controller's two ports deliver. */
    method HandleInterrupt(status: int, data: int)
      requires Valid()
      modifies this, buffer
      ensures Valid()
      ensures hasHandler ==> View() == Step(old(View()), status, data)
      ensures hasHandler ==> events == old(events) + Emitted(old(View()), status, data)
      ensures !hasHandler ==> events == old(events)
      ensures !hasHandler ==>
                View() == if FromMouse(status) then old(View()).(buffer := old(buffer[..])[old(offset) := data])
                          else old(View())
    {
      if !FromMouse(status) {
        return;
      }
      buffer[offset] := data;
      if !hasHandler {
        return;
      }
      offset := (offset + 1) % 3;
      if offset == 0 {
        Emit();
        buttons := buffer[0];
      }
    }

    /** Calls the handler for the packet in the buffer. */
    method Emit()
      requires Valid()
      modifies this`events
      ensures events == old(events) + PacketEvents(buttons, buffer[0], buffer[1], buffer[2])
    {
      if buffer[1] != 0 || buffer[2] != 0 {
        events := events + [Moved(I8(buffer[1]), -I8(buffer[2]))];
      }
      EmitButtons(buffer[0]);
    }

    method EmitButtons(now: int)
      modifies this`events
      ensures events == old(events) + ButtonEvents(buttons, now, 0)
    {
      ghost var sent: seq<Event> := [];
      var i := 0;
      while i < 3
        invariant 0 <= i <= 3
        invariant events == old(events) + sent
        invariant sent + ButtonEvents(buttons, now, i) == ButtonEvents(buttons, now, 0)
      {
        OneButton(sent, buttons, now, i);
        if Bit(now, i) != Bit(buttons, i) {
          var e := if Bit(buttons, i) then Up(i + 1) else Down(i + 1);
          events := events + [e];
          sent := sent + [e];
        }
        i := i + 1;
      }
      assert sent == ButtonEvents(buttons, now, 0);
    }
  }

  lemma OneButton(sent: seq<Event>, before: int, now: int, i: nat)
    requires i < BUTTONS
    ensures sent + ButtonEvents(before, now, i) ==
            if Bit(now, i) == Bit(before, i) then sent + ButtonEvents(before, now, i + 1)
            else (sent + [if Bit(before, i) then Up(i + 1) else Down(i + 1)]) + ButtonEvents(before, now, i + 1)
  {
  }
}
