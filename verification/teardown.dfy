/**
  The paired teardown of a tunnel (index.ts:66-80). Each socket has a
  `close` and an `error` listener that destroys the other socket. A socket
  that reports `close` or `error` is itself finished, an `error` is
  followed by that socket's own `close`, and destroying a live socket
  makes it report `close` in turn. Events are handled one at a time, in
  the order they are queued, as on Node's single event loop.
*/
module Teardown {

  datatype Side = Client | Upstream

  function Other(s: Side): Side {
    match s
    case Client => Upstream
    case Upstream => Client
  }

  datatype Kind = Close | Error

  /** A `close` or `error` reported by one of the two sockets. */
  datatype Event = Event(side: Side, kind: Kind)

  /** Which of the tunnel's two sockets have been destroyed. */
  datatype Pair = Pair(clientDestroyed: bool, upstreamDestroyed: bool)

  /** Both sockets open: the state once the relay listeners are installed. */
  const Live: Pair := Pair(false, false)

  function IsDestroyed(p: Pair, s: Side): bool {
    match s
    case Client => p.clientDestroyed
    case Upstream => p.upstreamDestroyed
  }

  /** `socket.destroy()`: idempotent, and it leaves the other socket alone. */
  function Destroy(p: Pair, s: Side): (q: Pair)
    ensures IsDestroyed(q, s)
    ensures IsDestroyed(q, Other(s)) == IsDestroyed(p, Other(s))
  {
    match s
    case Client => p.(clientDestroyed := true)
    case Upstream => p.(upstreamDestroyed := true)
  }

  predicate BothDestroyed(p: Pair) {
    p.clientDestroyed && p.upstreamDestroyed
  }

  /** Open sockets left; each step that causes new events closes at least one. */
  function LiveCount(p: Pair): nat {
    (if p.clientDestroyed then 0 else 1) + (if p.upstreamDestroyed then 0 else 1)
  }

  /** The state after one listener runs, and the events that run causes. */
  datatype Reaction = Reaction(after: Pair, caused: seq<Event>)

  /**
    One listener run. The reporting socket is finished; its listener
    destroys the other socket (index.ts:67-72 for the upstream socket,
    index.ts:75-80 for the client socket). Every socket that was still
    open reports its own `close` afterwards; nothing else is caused.
  */
  function Step(p: Pair, e: Event): (r: Reaction)
    ensures BothDestroyed(r.after)
    ensures |r.caused| <= LiveCount(p) - LiveCount(r.after)
    ensures forall i :: 0 <= i < |r.caused| ==>
      r.caused[i].kind == Close && !IsDestroyed(p, r.caused[i].side)
    ensures !IsDestroyed(p, Other(e.side)) ==> Event(Other(e.side), Close) in r.caused
  {
    var self, other := e.side, Other(e.side);
    var selfCloses := if e.kind == Error && !IsDestroyed(p, self) then [Event(self, Close)] else [];
    var otherCloses := if IsDestroyed(p, other) then [] else [Event(other, Close)];
    Reaction(Destroy(Destroy(p, self), other), selfCloses + otherCloses)
  }

  /** Runs the listeners for the queued events and for everything they cause, until none is left. */
  function Settle(p: Pair, queue: seq<Event>): (r: Pair)
    ensures queue == [] ==> r == p
    ensures queue != [] ==> BothDestroyed(r)
    decreases LiveCount(p), |queue|
  {
    if |queue| == 0 then p
    else
      var reaction := Step(p, queue[0]);
      Settle(reaction.after, queue[1..] + reaction.caused)
  }

  /**
    How many listener runs `Settle` performs: one per queued event plus at
    most one per socket still open, so teardown finishes in bounded time.
  */
  function Runs(p: Pair, queue: seq<Event>): (n: nat)
    ensures n <= |queue| + LiveCount(p)
    ensures |queue| <= n
    decreases LiveCount(p), |queue|
  {
    if |queue| == 0 then 0
    else
      var reaction := Step(p, queue[0]);
      1 + Runs(reaction.after, queue[1..] + reaction.caused)
  }

  /** Once both sockets are gone, any further event changes nothing and causes nothing. */
  lemma StepAbsorbing(p: Pair, e: Event)
    requires BothDestroyed(p)
    ensures Step(p, e) == Reaction(p, [])
  {
  }

  // ---- Symmetry ----

  function MirrorPair(p: Pair): Pair {
    Pair(p.upstreamDestroyed, p.clientDestroyed)
  }

  function MirrorEvent(e: Event): Event {
    Event(Other(e.side), e.kind)
  }

  function MirrorEvents(es: seq<Event>): (ms: seq<Event>)
    ensures |ms| == |es|
    ensures forall i :: 0 <= i < |es| ==> ms[i] == MirrorEvent(es[i])
  {
    if |es| == 0 then [] else [MirrorEvent(es[0])] + MirrorEvents(es[1..])
  }

  /**
    The listeners are mirror images: swapping the roles of the client and
    the upstream socket, in the state and in the event, swaps them in the
    resulting state and in every event the run causes.
  */
  lemma StepMirror(p: Pair, e: Event)
    ensures Step(MirrorPair(p), MirrorEvent(e))
         == Reaction(MirrorPair(Step(p, e).after), MirrorEvents(Step(p, e).caused))
  {
    var caused := Step(p, e).caused;
    assert MirrorEvents(caused) == Step(MirrorPair(p), MirrorEvent(e)).caused;
  }
}
