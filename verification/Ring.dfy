/**
 The scancode ring between the IRQ1 handler and the main loop, at the granularity of single loads and
 stores. The handler and the loop each have a program counter; an arbitrary interleaving of their steps
 is a run. `accepted` and `delivered` record the bytes whose head store and tail store have happened.
 */
module Ring {
  import opened BootData

  const RING_CAP: nat := 256

  datatype Producer =
    | PIdle
    | PHead(byte: byte, head: nat)    // loaded the head
    | PRoom(byte: byte, head: nat)    // loaded the tail and found room
    | PStored(byte: byte, head: nat)  // stored the cell

  datatype Consumer =
    | CIdle
    | CTail(tail: nat)                // loaded the tail
    | CReady(tail: nat)               // loaded the head and found a byte
    | CRead(tail: nat, byte: byte)    // loaded the cell

  datatype State = State(
    head: nat, tail: nat, cells: seq<byte>, dropped: nat,
    producer: Producer, consumer: Consumer,
    pushed: nat, accepted: seq<byte>, delivered: seq<byte>)

  datatype Action = Interrupt(byte: byte) | ProducerStep | StartPop | ConsumerStep

  function Initial(): State {
    State(0, 0, seq(RING_CAP, _ => 0), 0, PIdle, CIdle, 0, [], [])
  }

  /** One load or store of `ring_push` or `ring_pop`; an action of a busy or idle side that does not apply does nothing. */
  function Next(s: State, a: Action): State
    requires |s.cells| == RING_CAP
  {
    match a
    case Interrupt(b) =>
      if s.producer.PIdle? then s.(producer := PHead(b, s.head), pushed := s.pushed + 1) else s
    case ProducerStep =>
      (match s.producer
       case PIdle => s
       case PHead(b, h) =>
         if (h + 1) % RING_CAP == s.tail then s.(producer := PIdle, dropped := s.dropped + 1)
         else s.(producer := PRoom(b, h))
       case PRoom(b, h) =>
         if h < RING_CAP then s.(producer := PStored(b, h), cells := s.cells[h := b]) else s
       case PStored(b, h) =>
         s.(producer := PIdle, head := (h + 1) % RING_CAP, accepted := s.accepted + [b]))
    case StartPop =>
      if s.consumer.CIdle? then s.(consumer := CTail(s.tail)) else s
    case ConsumerStep =>
      (match s.consumer
       case CIdle => s
       case CTail(t) => if t == s.head then s.(consumer := CIdle) else s.(consumer := CReady(t))
       case CReady(t) => if t < RING_CAP then s.(consumer := CRead(t, s.cells[t])) else s
       case CRead(t, b) =>
         s.(consumer := CIdle, tail := (t + 1) % RING_CAP, delivered := s.delivered + [b]))
  }

  function Run(s: State, actions: seq<Action>): (r: State)
    requires |s.cells| == RING_CAP
    ensures |r.cells| == RING_CAP
    decreases |actions|
  {
    if actions == [] then s else Next(Run(s, actions[..|actions| - 1]), actions[|actions| - 1])
  }

  /** The bytes accepted and not yet delivered. */
  function Queue(s: State): seq<byte> {
    if |s.delivered| <= |s.accepted| then s.accepted[|s.delivered|..] else []
  }

  ghost predicate CellsHold(cells: seq<byte>, accepted: seq<byte>, from: nat)
    requires |cells| == RING_CAP
  {
    forall k: nat | from <= k < |accepted| :: cells[k % RING_CAP] == accepted[k]
  }

  ghost predicate Inv(s: State) {
    var a, d := |s.accepted|, |s.delivered|;
    && |s.cells| == RING_CAP
    && d <= a < d + RING_CAP
    && s.head == a % RING_CAP && s.tail == d % RING_CAP
    && s.delivered == s.accepted[..d]
    && CellsHold(s.cells, s.accepted, d)
    && s.pushed == a + s.dropped + (if s.producer.PIdle? then 0 else 1)
    && (match s.producer
        case PIdle => true
        case PHead(_, h) => h == s.head
        case PRoom(_, h) => h == s.head && a + 1 < d + RING_CAP
        case PStored(b, h) => h == s.head && a + 1 < d + RING_CAP && s.cells[h] == b)
    && (match s.consumer
        case CIdle => true
        case CTail(t) => t == s.tail
        case CReady(t) => t == s.tail && d < a
        case CRead(t, b) => t == s.tail && d < a && b == s.accepted[d])
  }

  lemma ModDiffers(k: nat, n: nat)
    requires k < n < k + RING_CAP
    ensures k % RING_CAP != n % RING_CAP
  {
  }

  lemma ModNext(n: nat)
    ensures (n % RING_CAP + 1) % RING_CAP == (n + 1) % RING_CAP
  {
  }

  /** A ring of at most 255 bytes is full, or empty, exactly when its indices say so. */
  lemma FullAndEmpty(d: nat, a: nat)
    requires d <= a <= d + 255
    ensures (a % RING_CAP + 1) % RING_CAP == d % RING_CAP <==> a - d == 255
    ensures a % RING_CAP == d % RING_CAP <==> a == d
  {
    ModNext(a);
    if a + 1 < d + RING_CAP {
      ModDiffers(d, a + 1);
    } else {
      assert a + 1 == d + RING_CAP;
    }
    if d < a {
      ModDiffers(d, a);
    }
  }

  lemma InitialInv()
    ensures Inv(Initial())
  {
  }

  /** Storing the next byte leaves every queued cell alone. */
  lemma StoreAside(cells: seq<byte>, accepted: seq<byte>, from: nat, b: byte)
    requires |cells| == RING_CAP && from <= |accepted| && |accepted| + 1 < from + RING_CAP && CellsHold(cells, accepted, from)
    ensures CellsHold(cells[|accepted| % RING_CAP := b], accepted, from)
    ensures CellsHold(cells[|accepted| % RING_CAP := b], accepted + [b], from)
  {
    forall k: nat | from <= k < |accepted| ensures k % RING_CAP != |accepted| % RING_CAP {
      ModDiffers(k, |accepted|);
    }
  }

  lemma LookKeepsInv(s: State)
    requires Inv(s) && s.producer.PHead?
    ensures Inv(Next(s, ProducerStep))
  {
    hide CellsHold;
    FullAndEmpty(|s.delivered|, |s.accepted|);
  }

  lemma StoreKeepsInv(s: State)
    requires Inv(s) && s.producer.PRoom?
    ensures Inv(Next(s, ProducerStep))
  {
    hide CellsHold;
    StoreAside(s.cells, s.accepted, |s.delivered|, s.producer.byte);
  }

  lemma PublishKeepsInv(s: State)
    requires Inv(s) && s.producer.PStored?
    ensures Inv(Next(s, ProducerStep))
  {
    hide CellsHold;
    var PStored(b, h) := s.producer;
    ModNext(|s.accepted|);
    StoreAside(s.cells, s.accepted, |s.delivered|, b);
    assert s.cells[h := b] == s.cells;
  }

  lemma ProducerKeepsInv(s: State)
    requires Inv(s)
    ensures Inv(Next(s, ProducerStep))
  {
    hide Inv;
    match s.producer
    case PIdle =>
    case PHead(_, _) => LookKeepsInv(s);
    case PRoom(_, _) => StoreKeepsInv(s);
    case PStored(_, _) => PublishKeepsInv(s);
  }

  lemma ConsumerKeepsInv(s: State)
    requires Inv(s)
    ensures Inv(Next(s, ConsumerStep))
  {
    var a, d := |s.accepted|, |s.delivered|;
    match s.consumer
    case CIdle =>
    case CTail(t) =>
    case CReady(t) =>
      assert s.cells[d % RING_CAP] == s.accepted[d];
    case CRead(t, b) =>
      ModNext(d);
      assert s.accepted[..d + 1] == s.accepted[..d] + [b];
  }

  lemma NextKeepsInv(s: State, a: Action)
    requires Inv(s)
    ensures Inv(Next(s, a))
  {
    match a
    case Interrupt(_) =>
    case ProducerStep => ProducerKeepsInv(s);
    case StartPop =>
    case ConsumerStep => ConsumerKeepsInv(s);
  }

  lemma {:induction false} RunInv(actions: seq<Action>)
    ensures Inv(Run(Initial(), actions))
    decreases |actions|
  {
    hide Inv;
    InitialInv();
    if actions != [] {
      var n := |actions| - 1;
      RunInv(actions[..n]);
      NextKeepsInv(Run(Initial(), actions[..n]), actions[n]);
    }
  }

  /**
   Under every interleaving: delivered bytes followed by queued bytes are the accepted bytes in order,
   every byte pushed is accepted, dropped or still in the handler, and at most 255 bytes are queued.
   */
  lemma RingIsFifo(actions: seq<Action>)
    ensures var s := Run(Initial(), actions);
            && s.delivered + Queue(s) == s.accepted
            && s.pushed == |s.accepted| + s.dropped + (if s.producer.PIdle? then 0 else 1)
            && |Queue(s)| <= 255
  {
    hide Run;
    RunInv(actions);
  }

  /** Each step leaves the queue alone, appends the byte pushed, or removes and delivers the oldest byte. */
  lemma StepRefinesQueue(s: State, a: Action)
    requires Inv(s)
    ensures var q, q' := Queue(s), Queue(Next(s, a));
            if a.ProducerStep? && s.producer.PStored? then q' == q + [s.producer.byte]
            else if a.ConsumerStep? && s.consumer.CRead? then
              q == [s.consumer.byte] + q' && Next(s, a).delivered == s.delivered + [s.consumer.byte]
            else q' == q && Next(s, a).delivered == s.delivered
  {
    var d := |s.delivered|;
    if a.ConsumerStep? && s.consumer.CRead? {
      assert s.accepted[d..] == [s.accepted[d]] + s.accepted[d + 1..];
    }
  }

  /** A byte is dropped only when 255 bytes are queued, and a pop comes back empty only when none is. */
  lemma DropOnlyWhenFull(s: State)
    requires Inv(s)
    ensures Next(s, ProducerStep).dropped > s.dropped <==> s.producer.PHead? && |Queue(s)| == 255
    ensures s.consumer.CTail? ==> (Next(s, ConsumerStep).consumer.CIdle? <==> Queue(s) == [])
  {
    FullAndEmpty(|s.delivered|, |s.accepted|);
  }

  /** Between the consumer's look at a cell and its tail store, no step of the handler changes that cell. */
  lemma NoOverwrite(s: State, a: Action)
    requires Inv(s) && (s.consumer.CReady? || s.consumer.CRead?) && (a.ProducerStep? || a.Interrupt?)
    ensures var t := s.consumer.tail;
            t < RING_CAP && Next(s, a).cells[t] == s.cells[t] && Next(s, a).consumer == s.consumer
  {
    if s.producer.PRoom? {
      ModDiffers(|s.delivered|, |s.accepted|);
    }
  }

  lemma ModDistance(d: nat, a: nat)
    requires d <= a < d + RING_CAP
    ensures var h, t := a % RING_CAP, d % RING_CAP; (if h >= t then h - t else RING_CAP - t + h) == a - d
  {
    var q := d / RING_CAP;
    assert a / RING_CAP == q || a / RING_CAP == q + 1;
  }

  /** What `pending` computes from a head and a tail. */
  function Pending(head: nat, tail: nat): int {
    if head >= tail then head - tail else RING_CAP - tail + head
  }

  /**
   `pending` loads the head and then the tail, and the handler may run in between: the answer is the length of the queue
   at the first load, and the bytes counted are still at its front at the second.
   */
  lemma {:induction false} PendingExact(s: State, between: seq<Action>)
    requires Inv(s) && forall a | a in between :: a.Interrupt? || a.ProducerStep?
    ensures var s' := Run(s, between);
            Pending(s.head, s'.tail) == |Queue(s)| && Queue(s) <= Queue(s')
  {
    HandlerAppends(s, between);
    hide CellsHold, Run;
    ModDistance(|s.delivered|, |s.accepted|);
  }

  /** However long the handler runs, it only appends to the queue. */
  lemma {:induction false} HandlerAppends(s: State, actions: seq<Action>)
    requires Inv(s) && forall a | a in actions :: a.Interrupt? || a.ProducerStep?
    ensures var s' := Run(s, actions);
            Inv(s') && s'.tail == s.tail && s'.delivered == s.delivered && Queue(s) <= Queue(s')
    decreases |actions|
  {
    assert |s.cells| == RING_CAP;
    hide Inv, Queue;
    if actions != [] {
      var n := |actions| - 1;
      HandlerAppends(s, actions[..n]);
      assert actions[n] in actions;
      var s1 := Run(s, actions[..n]);
      NextKeepsInv(s1, actions[n]);
      StepRefinesQueue(s1, actions[n]);
    }
  }
}
