/** Cross-core word framing (Utils/Comm.cpp, Utils/Comm.h). A message travels
    over the inter-core FIFO as one type word followed by exactly Size[type]
    payload words. The Receiver reassembles messages one word per call; the
    Sender queues messages and writes one whole frame per call. */
module Comm {
  import opened Wrappers

  /** Message::Type values. */
  const UNKNOWN: nat := 0
  const MEASUREMENTS: nat := 1
  const SNAKE: nat := 2

  /** Capacity of Message::data. */
  const DATA_WORDS: nat := 32

  /** A message: the raw type word and the 32-word payload buffer. */
  datatype Message = Message(msgType: nat, data: seq<nat>)

  predicate WellFormed(m: Message) { |m.data| == DATA_WORDS }

  /** The Message::Size table: Measurements carries 21 words, Snake 1; every
      other type word (Unknown included) is absent. */
  function Size(t: nat): (n: Option<nat>)
    ensures n.Some? <==> t == MEASUREMENTS || t == SNAKE
    ensures n.Some? ==> 0 < n.value <= DATA_WORDS
  {
    if t == MEASUREMENTS then Some(21)
    else if t == SNAKE then Some(1)
    else None
  }

  /** The words one message occupies on the wire. */
  function Frame(m: Message): (w: seq<nat>)
    requires WellFormed(m) && Size(m.msgType).Some?
    ensures |w| == Size(m.msgType).value + 1
    ensures w[0] == m.msgType && w[1..] == m.data[..Size(m.msgType).value]
  {
    [m.msgType] + m.data[..Size(m.msgType).value]
  }

  /** The hardware inter-core FIFO, seen as the sequence of words not yet popped. */
  class Fifo {
    var words: seq<nat>
    constructor ()
      ensures words == []
    {
      words := [];
    }
  }

  datatype RxState = Idle | Receiving

  /** Everything Receiver::Process reads and writes, as one value. */
  datatype Rx = Rx(state: RxState, msgType: nat, data: seq<nat>, received: int, toReceive: int)

  predicate RxValid(r: Rx)
  {
    |r.data| == DATA_WORDS &&
    (r.state == Idle ==> r.received == 0) &&
    (r.state == Receiving ==> 0 <= r.received < r.toReceive <= DATA_WORDS)
  }

  /** One call of Receiver::Process that found the word `w` in the FIFO: the
      new receiver state and the message it hands out, if any. */
  function RxStep(r: Rx, w: nat): (out: (Rx, Option<Message>))
    requires RxValid(r)
    ensures RxValid(out.0)
    ensures out.1.Some? ==> WellFormed(out.1.value)
  {
    match r.state
    case Idle =>
      var r1 := r.(msgType := w);
      if Size(w).None? then (r1, None)
      else
        var n := Size(w).value;
        if n == 0 then (r1.(toReceive := n), Some(Message(w, r1.data)))
        else (r1.(toReceive := n, state := Receiving), None)
    case Receiving =>
      var d := r.data[r.received := w];
      var k := r.received + 1;
      if k >= r.toReceive then (r.(data := d, received := 0, state := Idle), Some(Message(r.msgType, d)))
      else (r.(data := d, received := k), None)
  }

  /** Feeding words one per call: the final state and what each call returned. */
  function Feed(r: Rx, ws: seq<nat>): (out: (Rx, seq<Option<Message>>))
    requires RxValid(r)
    ensures RxValid(out.0) && |out.1| == |ws|
    ensures forall i :: 0 <= i < |ws| && out.1[i].Some? ==> WellFormed(out.1[i].value)
    decreases |ws|
  {
    if ws == [] then (r, [])
    else
      var step := RxStep(r, ws[0]);
      var rest := Feed(step.0, ws[1..]);
      (rest.0, [step.1] + rest.1)
  }

  function Nones(n: nat): (r: seq<Option<Message>>)
    ensures |r| == n && forall i :: 0 <= i < n ==> r[i] == None
  {
    if n == 0 then [] else [None] + Nones(n - 1)
  }

  /** The payload part of a frame, fed into a receiver that is mid-message
      with `k` words still to come, returns nothing until the last word. */
  lemma {:induction false} FeedPayload(r: Rx, ws: seq<nat>)
    requires RxValid(r) && r.state == Receiving
    requires |ws| == r.toReceive - r.received
    ensures Feed(r, ws).0.state == Idle
    ensures Feed(r, ws).0.msgType == r.msgType
    ensures Feed(r, ws).0.data[..r.received] == r.data[..r.received]
    ensures Feed(r, ws).0.data[r.received..r.toReceive] == ws
    ensures Feed(r, ws).1 == Nones(|ws| - 1) + [Some(Message(r.msgType, Feed(r, ws).0.data))]
    decreases |ws|
  {
    var step := RxStep(r, ws[0]);
    var d := r.data[r.received := ws[0]];
    if |ws| == 1 {
      assert step.0.data == d;
      assert Feed(r, ws).0 == step.0;
      assert d[r.received..r.toReceive] == [ws[0]];
    } else {
      var r1 := step.0;
      assert r1 == r.(data := d, received := r.received + 1);
      FeedPayload(r1, ws[1..]);
      var fin := Feed(r1, ws[1..]).0;
      assert Feed(r, ws).0 == fin;
      assert fin.data[..r1.received] == d[..r1.received];
      assert fin.data[..r.received] == r.data[..r.received] by {
        assert fin.data[..r.received] == fin.data[..r1.received][..r.received];
      }
      assert fin.data[r.received..r.toReceive] == [ws[0]] + ws[1..] by {
        assert fin.data[r.received] == d[r.received];
        assert fin.data[r.received..r.toReceive] == [fin.data[r.received]] + fin.data[r1.received..r.toReceive];
      }
      assert Feed(r, ws).1 == [None] + Feed(r1, ws[1..]).1;
      assert Nones(|ws| - 1) == [None] + Nones(|ws| - 2);
    }
  }

  /** Round trip: the words of one Sender frame, fed one per call to an idle
      receiver, yield nothing until the last word, which yields a message with
      the same type and the same first Size[type] payload words. */
  lemma FrameRoundTrip(r: Rx, m: Message)
    requires RxValid(r) && r.state == Idle
    requires WellFormed(m) && Size(m.msgType).Some?
    ensures var out := Feed(r, Frame(m));
      out.0.state == Idle &&
      out.1[..|out.1| - 1] == Nones(|out.1| - 1) &&
      out.1[|out.1| - 1].Some? &&
      out.1[|out.1| - 1].value.msgType == m.msgType &&
      out.1[|out.1| - 1].value.data[..Size(m.msgType).value] == m.data[..Size(m.msgType).value]
  {
    var n := Size(m.msgType).value;
    var fr := Frame(m);
    var step := RxStep(r, fr[0]);
    assert step.1 == None && step.0.state == Receiving && step.0.received == 0 && step.0.toReceive == n;
    FeedPayload(step.0, fr[1..]);
    assert Feed(r, fr).1 == [None] + Feed(step.0, fr[1..]).1;
    assert Nones(n) == [None] + Nones(n - 1);
  }

  /** A type word missing from the table is dropped and the receiver stays
      idle; only the remembered type changes. */
  lemma UnknownTypeDropped(r: Rx, w: nat)
    requires RxValid(r) && r.state == Idle && Size(w).None?
    ensures RxStep(r, w) == (r.(msgType := w), None)
  {
  }

  /** Resynchronisation: a bad type word followed by a valid frame loses only
      the bad word; the frame still comes through. */
  lemma ResyncAfterUnknownType(r: Rx, bad: nat, m: Message)
    requires RxValid(r) && r.state == Idle && Size(bad).None?
    requires WellFormed(m) && Size(m.msgType).Some?
    ensures var out := Feed(r, [bad] + Frame(m));
      out.1[0] == None &&
      out.1[|out.1| - 1].Some? &&
      out.1[|out.1| - 1].value.msgType == m.msgType &&
      out.1[|out.1| - 1].value.data[..Size(m.msgType).value] == m.data[..Size(m.msgType).value]
  {
    var r1 := RxStep(r, bad).0;
    assert ([bad] + Frame(m))[1..] == Frame(m);
    FrameRoundTrip(r1, m);
  }

  /** Receiver: a resumable Idle/Receiving state machine that consumes at most one word per call. */
  class Receiver {
    var state: RxState
    var msgType: nat
    var data: array<nat>
    var received: int
    var toReceive: int

    ghost predicate Valid()
      reads this, data
    {
      RxValid(Snapshot())
    }

    ghost function Snapshot(): Rx
      reads this, data
    {
      Rx(state, msgType, data[..], received, toReceive)
    }

    constructor ()
      ensures Valid() && fresh(data) && state == Idle && msgType == UNKNOWN
    {
      state := Idle;
      msgType := UNKNOWN;
      data := new nat[DATA_WORDS];
      received := 0;
      toReceive := 0;
    }

    method Process(fifo: Fifo) returns (m: Option<Message>)
      requires Valid()
      modifies this, data, fifo
      ensures Valid() && data == old(data)
      ensures old(fifo.words) == [] ==> m == None && fifo.words == [] && Snapshot() == old(Snapshot())
      ensures old(fifo.words) != [] ==>
        fifo.words == old(fifo.words)[1..] &&
        (Snapshot(), m) == RxStep(old(Snapshot()), old(fifo.words)[0])
    {
      if fifo.words == [] {
        return None;
      }
      match state
      case Idle =>
        var w := fifo.words[0];
        fifo.words := fifo.words[1..];
        msgType := w;
        var size := Size(w);
        if size.None? {
          return None;
        }
        toReceive := size.value;
        if toReceive == 0 {
          // A zero-sized type would be handed out at once; no entry of the table is zero.
          assert false;
        }
        state := Receiving;
        return None;
      case Receiving =>
        data[received] := fifo.words[0];
        fifo.words := fifo.words[1..];
        received := received + 1;
        if received >= toReceive {
          state := Idle;
          received := 0;
          return Some(Message(msgType, data[..]));
        }
        return None;
    }
  }

  /** Sender: a queue of outgoing messages; each Process call writes one frame. */
  class Sender {
    var messages: seq<Message>

    ghost predicate Valid()
      reads this
    {
      forall i :: 0 <= i < |messages| ==> WellFormed(messages[i])
    }

    constructor ()
      ensures Valid() && messages == []
    {
      messages := [];
    }

    method Send(m: Message)
      requires Valid() && WellFormed(m)
      modifies this
      ensures Valid() && messages == old(messages) + [m]
    {
      messages := messages + [m];
    }

    /** Writes the front message's frame. `ok` is false when the front message
        has a type missing from the table: Size.at throws once the type word is
        already in the FIFO, and the message stays queued. */
    method Process(fifo: Fifo) returns (ok: bool)
      requires Valid()
      modifies this, fifo
      ensures Valid()
      ensures old(messages) == [] ==> ok && messages == [] && fifo.words == old(fifo.words)
      ensures old(messages) != [] && Size(old(messages)[0].msgType).Some? ==>
        ok && messages == old(messages)[1..] && fifo.words == old(fifo.words) + Frame(old(messages)[0])
      ensures old(messages) != [] && Size(old(messages)[0].msgType).None? ==>
        !ok && messages == old(messages) && fifo.words == old(fifo.words) + [old(messages)[0].msgType]
    {
      if messages == [] {
        return true;
      }
      var m := messages[0];
      fifo.words := fifo.words + [m.msgType];
      var size := Size(m.msgType);
      if size.None? {
        return false;
      }
      var i := 0;
      while i < size.value
        invariant 0 <= i <= size.value
        invariant fifo.words == old(fifo.words) + [m.msgType] + m.data[..i]
        invariant messages == old(messages)
      {
        fifo.words := fifo.words + [m.data[i]];
        i := i + 1;
      }
      messages := messages[1..];
      return true;
    }
  }
}
