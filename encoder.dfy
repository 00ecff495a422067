/** Rotary-encoder decoding (Components/Encoder.cpp). Falling edges on the two
    phase pins drive a two-latch state machine; a completed step is queued as
    a Left or Right event in a CircleDeq, and Process drains the queue on the
    main loop, then polls the attached push button. */
module Encoders {
  import opened CircleDeqs
  import opened Buttons

  /** Encoder::Direction; Left is the value-initialised Direction{}. */
  datatype Direction = Left | Right

  /** The callbacks Encoder::Process invoked, in order. */
  datatype EncoderCall = CallLeft | CallRight | ButtonCallback(call: ButtonCall)

  function Pow2(k: nat): (r: nat)
    ensures r >= 1
  {
    if k == 0 then 1 else 2 * Pow2(k - 1)
  }

  /** `(pins & (1u << pin)) != 0` on the gpio_get_all() snapshot. */
  function PinLevel(pins: nat, pin: nat): bool
  {
    (pins / Pow2(pin)) % 2 == 1
  }

  /** The two "falling edge seen" latches. */
  datatype Latches = Latches(cwFall: bool, ccwFall: bool)

  /** One interrupt: `onA`/`onB` say whether the interrupting gpio is pinA_ /
      pinB_, `a`/`b` are the sampled pin levels. Returns the new latches and
      the directions pushed onto the queue. */
  function Edge(onA: bool, onB: bool, a: bool, b: bool, l: Latches): (out: (Latches, seq<Direction>))
    // pin A falling with A low, B high arms the clockwise latch
    ensures onA && !onB && !l.cwFall && !a && b ==> out == (l.(cwFall := true), [])
    // pin A falling with both low completes a pending counter-clockwise step: Right
    ensures onA && !onB && l.ccwFall && !a && !b ==> out == (Latches(false, false), [Right])
    // pin B falling with A high, B low arms the counter-clockwise latch
    ensures onB && !onA && !l.ccwFall && a && !b ==> out == (l.(ccwFall := true), [])
    // pin B falling with both low completes a pending clockwise step: Left
    ensures onB && !onA && l.cwFall && !a && !b ==> out == (Latches(false, false), [Left])
    // at most one event per interrupt, and an event leaves both latches clear
    ensures |out.1| <= 1
    ensures out.1 != [] ==> out.0 == Latches(false, false)
    // a gpio that is neither pin changes nothing
    ensures !onA && !onB ==> out == (l, [])
  {
    var l1 := if onA && !l.cwFall && !a && b then l.(cwFall := true) else l;
    var right := onA && l1.ccwFall && !a && !b;
    var l2 := if right then Latches(false, false) else l1;
    var l3 := if onB && !l2.ccwFall && a && !b then l2.(ccwFall := true) else l2;
    var left := onB && l3.cwFall && !a && !b;
    var l4 := if left then Latches(false, false) else l3;
    (l4, if right && left then [Right, Left] else if right then [Right] else if left then [Left] else [])
  }

  /** The callbacks the drain loop invokes for the queued directions: unset
      callbacks are skipped. */
  function Dispatch(ds: seq<Direction>, hasOnLeft: bool, hasOnRight: bool): (r: seq<EncoderCall>)
    ensures |r| <= |ds|
    ensures hasOnLeft && hasOnRight ==> |r| == |ds|
  {
    if ds == [] then []
    else
      var last := ds[|ds| - 1];
      var c := if last == Left then (if hasOnLeft then [CallLeft] else [])
               else (if hasOnRight then [CallRight] else []);
      Dispatch(ds[..|ds| - 1], hasOnLeft, hasOnRight) + c
  }

  /** With both callbacks set, the drain invokes one callback per event, in FIFO order. */
  lemma {:induction false} DispatchInOrder(ds: seq<Direction>, i: nat)
    requires i < |ds|
    ensures Dispatch(ds, true, true)[i] == if ds[i] == Left then CallLeft else CallRight
    decreases |ds|
  {
    if i < |ds| - 1 {
      DispatchInOrder(ds[..|ds| - 1], i);
    }
  }

  /** Draining one more event appends its callback, if set. */
  lemma DispatchSnoc(ds: seq<Direction>, d: Direction, hasOnLeft: bool, hasOnRight: bool)
    ensures Dispatch(ds + [d], hasOnLeft, hasOnRight) ==
      Dispatch(ds, hasOnLeft, hasOnRight) + Dispatch([d], hasOnLeft, hasOnRight)
  {
    assert (ds + [d])[..|ds|] == ds;
    assert [d][..0] == [];
  }

  /** Moving the front of what is left onto what was taken keeps the whole. */
  lemma MoveFront<T>(taken: seq<T>, rest: seq<T>)
    requires rest != []
    ensures taken + rest == (taken + [rest[0]]) + rest[1..]
  {
    assert rest == [rest[0]] + rest[1..];
  }

  class Encoder {
    const pinA: nat
    const pinB: nat
    var button: Button?
    var directions: CircleDeq<Direction>
    var hasOnLeft: bool
    var hasOnRight: bool
    var cwFall: bool
    var ccwFall: bool

    ghost predicate Valid()
      reads this, directions, directions.data
    {
      directions.Valid() && directions.blank == Left
    }

    /** `pinButton`/`hasOnPress`: an onPress callback becomes the onUp_ of a
        button on pinButton. GPIO set-up and IRQ registration are left out. */
    constructor (pinA: nat, pinB: nat, pinButton: nat, hasOnPress: bool)
      ensures Valid() && fresh(directions) && fresh(directions.data)
      ensures this.pinA == pinA && this.pinB == pinB
      ensures directions.Contents() == [] && !cwFall && !ccwFall && !hasOnLeft && !hasOnRight
      ensures hasOnPress ==> button != null && fresh(button) && button.pin == pinButton && button.hasOnUp && !button.hasOnDown
      ensures !hasOnPress ==> button == null
    {
      this.pinA := pinA;
      this.pinB := pinB;
      directions := new CircleDeq<Direction>(Left);
      hasOnLeft, hasOnRight := false, false;
      cwFall, ccwFall := false, false;
      if hasOnPress {
        button := new Button(pinButton, false, true);
      } else {
        button := null;
      }
    }

    method SetOnLeft(enabled: bool)
      modifies this
      ensures hasOnLeft == enabled && hasOnRight == old(hasOnRight) && directions == old(directions)
      ensures button == old(button) && cwFall == old(cwFall) && ccwFall == old(ccwFall)
    {
      hasOnLeft := enabled;
    }

    method SetOnRight(enabled: bool)
      modifies this
      ensures hasOnRight == enabled && hasOnLeft == old(hasOnLeft) && directions == old(directions)
      ensures button == old(button) && cwFall == old(cwFall) && ccwFall == old(ccwFall)
    {
      hasOnRight := enabled;
    }

    /** An existing button gets the callback as its onDown_ (`enabled` false
        stands for a null callback, which clears it); without one, a new
        button is created on pinA_ (not on the button pin) with it as onUp_. */
    method SetOnPress(enabled: bool)
      modifies this, button
      ensures directions == old(directions) && hasOnLeft == old(hasOnLeft) && hasOnRight == old(hasOnRight)
      ensures cwFall == old(cwFall) && ccwFall == old(ccwFall)
      ensures old(button) != null ==>
        button == old(button) && button.hasOnDown == enabled &&
        button.hasOnUp == old(button.hasOnUp) && button.status == old(button.status)
      ensures old(button) == null ==>
        button != null && fresh(button) && button.pin == pinA &&
        button.status && button.hasOnUp == enabled && !button.hasOnDown
    {
      if button != null {
        button.SetOnDown(enabled);
      } else {
        button := new Button(pinA, false, enabled);
      }
    }

    /** Encoder::callback for an edge on `gpio`; `pins` is the gpio_get_all() snapshot. */
    method Callback(gpio: nat, pins: nat)
      requires Valid()
      modifies this, directions, directions.data
      ensures Valid() && directions == old(directions) && button == old(button)
      ensures hasOnLeft == old(hasOnLeft) && hasOnRight == old(hasOnRight)
      ensures var out := Edge(gpio == pinA, gpio == pinB, PinLevel(pins, pinA), PinLevel(pins, pinB),
                              Latches(old(cwFall), old(ccwFall)));
        Latches(cwFall, ccwFall) == out.0 &&
        directions.Contents() == PushAll(old(directions.Contents()), out.1)
    {
      var a := PinLevel(pins, pinA);
      var b := PinLevel(pins, pinB);
      ghost var q0 := directions.Contents();
      ghost var out := Edge(gpio == pinA, gpio == pinB, a, b, Latches(cwFall, ccwFall));
      if gpio == pinA {
        if !cwFall && (!a && b) {
          cwFall := true;
        }
        if ccwFall && (!a && !b) {
          cwFall := false;
          ccwFall := false;
          directions.PushBack(Right);
        }
      }
      ghost var q1 := directions.Contents();
      assert q1 == PushAll(q0, if gpio == pinA && old(ccwFall) && !a && !b then [Right] else []);
      if gpio == pinB {
        if !ccwFall && (a && !b) {
          ccwFall := true;
        }
        if cwFall && (!a && !b) {
          cwFall := false;
          ccwFall := false;
          directions.PushBack(Left);
        }
      }
      assert Latches(cwFall, ccwFall) == out.0;
    }

    /** Effect of the button poll at the end of Process: the callback fired,
        given the button's previous level and the sampled one. */
    static function Poll(previous: bool, level: bool, hasOnUp: bool, hasOnDown: bool): (r: seq<EncoderCall>)
      ensures |r| <= 1
      ensures level == previous ==> r == []
    {
      if level == previous then []
      else if level then (if hasOnUp then [ButtonCallback(OnUp)] else [])
      else (if hasOnDown then [ButtonCallback(OnDown)] else [])
    }

    /** The drain loop of Process: pops every queued direction in FIFO order,
        invoking the matching callback when it is set. */
    method Drain() returns (calls: seq<EncoderCall>)
      requires Valid()
      modifies directions, directions.data
      ensures Valid() && directions.Contents() == []
      ensures calls == Dispatch(old(directions.Contents()), hasOnLeft, hasOnRight)
    {
      ghost var q0 := directions.Contents();
      ghost var popped: seq<Direction> := [];
      calls := [];
      var done := directions.Empty();
      while !done
        invariant Valid() && q0 == popped + directions.Contents()
        invariant calls == Dispatch(popped, hasOnLeft, hasOnRight)
        invariant done <==> directions.Contents() == []
        decreases |directions.Contents()|
      {
        ghost var rest := directions.Contents();
        var d := directions.Front();
        DispatchSnoc(popped, d, hasOnLeft, hasOnRight);
        if d == Left {
          if hasOnLeft {
            calls := calls + [CallLeft];
          }
        } else {
          if hasOnRight {
            calls := calls + [CallRight];
          }
        }
        var _ := directions.PopFront();
        MoveFront(popped, rest);
        popped := popped + [d];
        done := directions.Empty();
      }
      assert popped + [] == popped;
    }

    /** Encoder::Process: drains the queue, then polls the attached button at
        the sampled `level`. */
    method Process(level: bool) returns (calls: seq<EncoderCall>)
      requires Valid()
      modifies directions, directions.data, button
      ensures Valid() && directions.Contents() == []
      ensures button == null ==> calls == Dispatch(old(directions.Contents()), hasOnLeft, hasOnRight)
      ensures button != null ==>
        button.status == level &&
        button.hasOnUp == old(button.hasOnUp) && button.hasOnDown == old(button.hasOnDown) &&
        calls == Dispatch(old(directions.Contents()), hasOnLeft, hasOnRight) +
                 Poll(old(button.status), level, old(button.hasOnUp), old(button.hasOnDown))
    {
      calls := Drain();
      if button != null {
        var fired := button.Process(level);
        if fired != NoCall {
          calls := calls + [ButtonCallback(fired)];
        }
      }
    }
  }

  /** irq_callback: forwards the edge to the encoder registered for that gpio
      (the pin -> encoder map); any other gpio is ignored. */
  method IrqCallback(registry: map<nat, Encoder>, gpio: nat, pins: nat)
    requires gpio in registry ==> registry[gpio].Valid()
    modifies if gpio in registry then {registry[gpio], registry[gpio].directions, registry[gpio].directions.data} else {}
    ensures gpio in registry ==> registry[gpio].Valid()
    ensures gpio in registry ==>
      var e := registry[gpio];
      var out := Edge(gpio == e.pinA, gpio == e.pinB, PinLevel(pins, e.pinA), PinLevel(pins, e.pinB),
                      Latches(old(e.cwFall), old(e.ccwFall)));
      e.directions == old(e.directions) && e.button == old(e.button) &&
      e.hasOnLeft == old(e.hasOnLeft) && e.hasOnRight == old(e.hasOnRight) &&
      Latches(e.cwFall, e.ccwFall) == out.0 &&
      e.directions.Contents() == PushAll(old(e.directions.Contents()), out.1)
  {
    if gpio in registry {
      registry[gpio].Callback(gpio, pins);
    }
  }
}
