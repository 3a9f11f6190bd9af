/**
 The whole input path at the grain of the ring's loads and stores: the IRQ1 handler pushes at any moment, also in the middle
 of a pop, while the main loop drains and decodes.
 */
module Input {
  import opened Wrappers
  import opened BootData
  import opened Keyboard
  import Ring

  /** The latest `drain`: its capacity, and what was delivered, queued and handed out when it began. */
  datatype Call = Call(capacity: nat, delivered: nat, queued: nat, out: nat)

  /** The main loop is outside `drain`, or in it with `room` slots left. */
  datatype Main = Away | Draining(room: nat)

  /** `arrived` are the bytes the handler was given, and `kept` tells of each one it is done with whether it was accepted. */
  datatype State = State(ring: Ring.State, main: Main, st: Decoder, out: seq<KeyEvent>, arrived: seq<byte>, kept: seq<bool>, call: Call)

  datatype Action = Interrupt(byte: byte) | HandlerStep | StartDrain(capacity: nat) | MainStep

  function Initial(st: Decoder): State {
    State(Ring.Initial(), Away, st, [], [], [], Call(0, 0, 0, 0))
  }

  /** One load or store of the handler or of the main loop; decoding a byte goes with the store that pops it. */
  function Next(s: State, a: Action, clock: nat -> nat): State
    requires |s.ring.cells| == Ring.RING_CAP
  {
    match a
    case Interrupt(b) =>
      s.(ring := Ring.Next(s.ring, Ring.Interrupt(b)), arrived := if s.ring.producer.PIdle? then s.arrived + [b] else s.arrived)
    case HandlerStep =>
      var ring := Ring.Next(s.ring, Ring.ProducerStep);
      s.(ring := ring,
         kept := if ring.producer.PIdle? && !s.ring.producer.PIdle? then s.kept + [s.ring.producer.PStored?] else s.kept)
    case StartDrain(n) =>
      if s.main.Away? then
        s.(main := if n > 0 then Draining(n) else Away,
           call := Call(n, |s.ring.delivered|, |Ring.Queue(s.ring)|, |s.out|))
      else s
    case MainStep =>
      if s.main.Away? then s
      else if s.ring.consumer.CIdle? then s.(ring := Ring.Next(s.ring, Ring.StartPop))
      else
        var ring := Ring.Next(s.ring, Ring.ConsumerStep);
        if s.ring.consumer.CRead? then Decoded(s, ring, s.ring.consumer.byte, clock)
        else if ring.consumer.CIdle? then s.(ring := ring, main := Away)
        else s.(ring := ring)
  }

  /** A popped byte goes through the decoder; without an event the drain ends, and so it does when its buffer is full. */
  function Decoded(s: State, ring: Ring.State, b: byte, clock: nat -> nat): State
    requires s.main.Draining?
  {
    var (st, ev) := Decode(s.st, b, clock(|s.ring.delivered|));
    if ev.None? then s.(ring := ring, st := st, main := Away)
    else s.(ring := ring, st := st, out := s.out + [ev.value], main := if s.main.room > 1 then Draining(s.main.room - 1) else Away)
  }

  function Run(s: State, actions: seq<Action>, clock: nat -> nat): (r: State)
    requires |s.ring.cells| == Ring.RING_CAP
    ensures |r.ring.cells| == Ring.RING_CAP
    decreases |actions|
  {
    if actions == [] then s else Next(Run(s, actions[..|actions| - 1], clock), actions[|actions| - 1], clock)
  }

  /** The events are the decoder folded over what was delivered. */
  ghost predicate Folded(s: State, st0: Decoder, clock: nat -> nat) {
    var scans := Stamp(s.ring.delivered, clock, 0);
    s.out == DecodeEvents(st0, scans) && s.st == DecodeState(st0, scans)
  }

  /** The bytes whose flag is set, in order. */
  function Select(bytes: seq<byte>, flags: seq<bool>): seq<byte>
    requires |bytes| == |flags|
  {
    if bytes == [] then [] else
    var n := |bytes| - 1;
    Select(bytes[..n], flags[..n]) + if flags[n] then [bytes[n]] else []
  }

  function Unset(flags: seq<bool>): nat {
    if flags == [] then 0 else Unset(flags[..|flags| - 1]) + if flags[|flags| - 1] then 0 else 1
  }

  /** What was accepted is what arrived with the dropped bytes removed; the byte in the handler's hands comes last. */
  ghost predicate InOrder(s: State) {
    var n := |s.kept|;
    && n <= |s.arrived| && s.ring.accepted == Select(s.arrived[..n], s.kept) && s.ring.dropped == Unset(s.kept)
    && s.arrived[n..] == InHand(s.ring)
  }

  function InHand(r: Ring.State): seq<byte> {
    if r.producer.PIdle? then [] else [r.producer.byte]
  }

  lemma SelectMore(arrived: seq<byte>, kept: seq<bool>, b: byte, flag: bool)
    requires |kept| <= |arrived| && arrived[|kept|..] == [b]
    ensures |kept| + 1 == |arrived| && arrived[|kept| + 1..] == []
    ensures Select(arrived[..|kept| + 1], kept + [flag]) == Select(arrived[..|kept|], kept) + if flag then [b] else []
    ensures Unset(kept + [flag]) == Unset(kept) + if flag then 0 else 1
  {
    var n := |kept|;
    assert arrived[n] == arrived[n..][0] == b;
    assert arrived[..n + 1][..n] == arrived[..n] && (kept + [flag])[..n] == kept;
  }

  lemma ArrivedMore(arrived: seq<byte>, kept: seq<bool>, b: byte)
    requires |kept| <= |arrived| && arrived[|kept|..] == []
    ensures (arrived + [b])[|kept|..] == [b] && (arrived + [b])[..|kept|] == arrived[..|kept|]
  {
  }

  /** The latest drain took a byte if there was one, and wrote no more than it had room for. */
  ghost predicate Progress(s: State) {
    var c, d := s.call, |s.ring.delivered|;
    && c.delivered <= d && c.out <= |s.out|
    && (if s.main.Draining? then
          && s.main.room > 0 && |s.out| - c.out + s.main.room == c.capacity
          && (c.queued > 0 ==> d > c.delivered || Ring.Queue(s.ring) != [])
        else |s.out| - c.out <= c.capacity && (c.queued > 0 && c.capacity > 0 ==> d > c.delivered))
  }

  /** Pops happen only inside a drain. */
  ghost predicate InDrain(s: State) {
    s.main.Away? ==> s.ring.consumer.CIdle?
  }

  ghost predicate Inv(s: State, st0: Decoder, clock: nat -> nat) {
    && Ring.Inv(s.ring) && |s.arrived| == s.ring.pushed
    && Folded(s, st0, clock) && InOrder(s) && Progress(s) && InDrain(s)
  }

  lemma InitialInv(st: Decoder, clock: nat -> nat)
    ensures Inv(Initial(st), st, clock)
  {
    Ring.InitialInv();
  }

  lemma FoldedMore(s: State, s': State, st0: Decoder, clock: nat -> nat, b: byte)
    requires Folded(s, st0, clock) && s'.ring.delivered == s.ring.delivered + [b]
    requires var (st, ev) := Decode(s.st, b, clock(|s.ring.delivered|));
             s'.st == st && s'.out == if ev.Some? then s.out + [ev.value] else s.out
    ensures Folded(s', st0, clock)
  {
    hide Decode, DecodeEvents, DecodeState, Stamp;
    assert s.out + [] == s.out;
    OneMore(st0, s.ring.delivered, b, clock, 0);
  }

  lemma HandlerKeeps(s: State, a: Action, st0: Decoder, clock: nat -> nat)
    requires Inv(s, st0, clock) && (a.Interrupt? || a.HandlerStep?)
    ensures Inv(Next(s, a, clock), st0, clock)
  {
    hide Ring.Inv, Decode, DecodeEvents, DecodeState, Stamp, InOrder;
    var ra := if a.Interrupt? then Ring.Interrupt(a.byte) else Ring.ProducerStep;
    Ring.NextKeepsInv(s.ring, ra);
    Ring.StepRefinesQueue(s.ring, ra);
    RingCells(s.ring);
    OrderKept(s, a, clock);
  }

  lemma OrderKept(s: State, a: Action, clock: nat -> nat)
    requires Ring.Inv(s.ring) && InOrder(s) && (a.Interrupt? || a.HandlerStep?)
    ensures |s.ring.cells| == Ring.RING_CAP && InOrder(Next(s, a, clock))
  {
    hide Select, Unset;
    RingCells(s.ring);
    HandlerCell(s.ring);
    hide Ring.Inv;
    if a.Interrupt? && s.ring.producer.PIdle? {
      ArrivedMore(s.arrived, s.kept, a.byte);
    }
    if a.HandlerStep? && !s.ring.producer.PIdle? {
      SelectMore(s.arrived, s.kept, s.ring.producer.byte, s.ring.producer.PStored?);
      assert s.ring.accepted + [] == s.ring.accepted;
    }
  }

  lemma HandlerCell(r: Ring.State)
    requires Ring.Inv(r)
    ensures r.producer.PRoom? ==> r.producer.head < Ring.RING_CAP
  {
  }

  lemma RingCells(r: Ring.State)
    requires Ring.Inv(r)
    ensures |r.cells| == Ring.RING_CAP
    ensures r.consumer.CReady? ==> r.consumer.tail < Ring.RING_CAP
  {
  }

  lemma MainKeeps(s: State, a: Action, st0: Decoder, clock: nat -> nat)
    requires Inv(s, st0, clock) && (a.StartDrain? || a.MainStep?)
    ensures Inv(Next(s, a, clock), st0, clock)
  {
    hide Ring.Inv, Decode, DecodeEvents, DecodeState, Stamp, Select, Unset;
    RingCells(s.ring);
    if a.MainStep? && s.main.Draining? {
      var ra := if s.ring.consumer.CIdle? then Ring.StartPop else Ring.ConsumerStep;
      Ring.NextKeepsInv(s.ring, ra);
      Ring.StepRefinesQueue(s.ring, ra);
      if s.ring.consumer.CTail? {
        Ring.DropOnlyWhenFull(s.ring);
      }
      if s.ring.consumer.CRead? {
        var ev := Decode(s.st, s.ring.consumer.byte, clock(|s.ring.delivered|)).1;
        assert ev.None? || ev.Some?;
        FoldedMore(s, Next(s, a, clock), st0, clock, s.ring.consumer.byte);
      }
    }
  }

  lemma {:induction false} RunInv(st0: Decoder, actions: seq<Action>, clock: nat -> nat)
    ensures Inv(Run(Initial(st0), actions, clock), st0, clock)
    decreases |actions|
  {
    hide Inv, Next;
    InitialInv(st0, clock);
    if actions != [] {
      var n := |actions| - 1;
      RunInv(st0, actions[..n], clock);
      var s := Run(Initial(st0), actions[..n], clock);
      if actions[n].Interrupt? || actions[n].HandlerStep? {
        HandlerKeeps(s, actions[n], st0, clock);
      } else {
        MainKeeps(s, actions[n], st0, clock);
      }
    }
  }

  /**
   From the keyboard to the events, under every interleaving: the events handed out are the decoder folded over the bytes
   delivered, delivered bytes followed by queued bytes are the bytes accepted, and the bytes accepted are the bytes that
   arrived with the dropped ones removed, up to the byte in the handler's hands.
   */
  lemma InputLosesNothing(st0: Decoder, actions: seq<Action>, clock: nat -> nat)
    ensures var s := Run(Initial(st0), actions, clock);
            var r := s.ring;
            var n := |s.kept|;
            && s.out == DecodeEvents(st0, Stamp(r.delivered, clock, 0))
            && r.delivered + Ring.Queue(r) == r.accepted && |Ring.Queue(r)| <= 255
            && n <= |s.arrived| && r.accepted == Select(s.arrived[..n], s.kept) && s.arrived[n..] == InHand(r)
            && r.dropped == Unset(s.kept)
  {
    hide Run, DecodeEvents, DecodeState, Stamp;
    RunInv(st0, actions, clock);
  }

  /**
   Under every interleaving, a drain that has returned wrote no more events than it had room for, and took at least one
   byte if there was a slot and a byte was queued when it began.
   */
  lemma DrainProgress(st0: Decoder, actions: seq<Action>, clock: nat -> nat)
    ensures var s := Run(Initial(st0), actions, clock);
            s.main.Away? ==>
              && |s.out| - s.call.out <= s.call.capacity
              && (s.call.queued > 0 && s.call.capacity > 0 ==> |s.ring.delivered| > s.call.delivered)
  {
    hide Run, Folded, Ring.Inv;
    RunInv(st0, actions, clock);
  }
}
