/**
  The server's `"connect"` listener (index.ts:40-83) as the sequence of
  effects it has on the world: the method guard, opening the upstream
  connection, the handshake writes, and installing the relay pipes and the
  teardown listeners. Whether the upstream connection is established is an
  input, since it depends on the network.
*/
module ConnectHandler {
  import Text
  import BasicAuth
  import Handshake
  import Teardown

  /**
    The values the handler reads from the process configuration: the
    upstream proxy's host and port and its credential (empty strings when
    the configured URL carries none).
  */
  datatype Config = Config(host: string, port: int, username: string, password: string)

  /** An inbound request: its method (`verb`), target and headers in iteration order. */
  datatype Request = Request(verb: string, url: string, headers: seq<Handshake.Header>)

  /** An effect of the handler, in the order the handler performs it. */
  datatype Action =
    | DestroyRequest                                  // `req.destroy()`
    | OpenUpstream(host: string, port: int)           // `net.createConnection`
    | Write(chunk: string)                            // `conn.write(chunk)`
    | Pipe(source: Teardown.Side, sink: Teardown.Side)
    | OnClose(watched: Teardown.Side)                 // listener that destroys the other socket
    | OnError(watched: Teardown.Side)                 // listener that destroys the other socket

  /** The guard of index.ts:43: exact, case-sensitive comparison. */
  predicate IsConnect(verb: string) {
    verb == "CONNECT"
  }

  function CredentialOf(cfg: Config): BasicAuth.Credential {
    BasicAuth.Credential(cfg.username, cfg.password)
  }

  function WriteActions(ws: seq<string>): (acts: seq<Action>)
    ensures |acts| == |ws|
    ensures forall i :: 0 <= i < |ws| ==> acts[i] == Write(ws[i])
  {
    if |ws| == 0 then [] else [Write(ws[0])] + WriteActions(ws[1..])
  }

  /** The relay set-up of index.ts:66-80: each pipe followed by the listeners on its source. */
  const Relay: seq<Action> :=
    [ Pipe(Teardown.Upstream, Teardown.Client), OnClose(Teardown.Upstream), OnError(Teardown.Upstream),
      Pipe(Teardown.Client, Teardown.Upstream), OnClose(Teardown.Client), OnError(Teardown.Client) ]

  /** What the connect callback does once the upstream socket is open (index.ts:53-81). */
  function OnConnected(cfg: Config, req: Request): (acts: seq<Action>)
    ensures var ws := Handshake.Writes(req.url, req.headers, CredentialOf(cfg));
      && |acts| == |ws| + |Relay|
      && (forall i :: 0 <= i < |ws| ==> acts[i] == Write(ws[i]))
      && acts[|ws|..] == Relay
  {
    WriteActions(Handshake.Writes(req.url, req.headers, CredentialOf(cfg))) + Relay
  }

  /**
    The effects of the handler for `req`. A request whose method is not
    exactly `CONNECT` is destroyed and nothing else happens; otherwise one
    upstream connection is opened and, if it is established, the handshake
    is written and the relay installed.
  */
  function Handle(cfg: Config, req: Request, connected: bool): (trace: seq<Action>)
    ensures !IsConnect(req.verb) <==> DestroyRequest in trace
    ensures !IsConnect(req.verb) ==> trace == [DestroyRequest]
    ensures IsConnect(req.verb) ==> |trace| > 0 && trace[0] == OpenUpstream(cfg.host, cfg.port)
  {
    if req.verb != "CONNECT" then [DestroyRequest]
    else [OpenUpstream(cfg.host, cfg.port)] + (if connected then OnConnected(cfg, req) else [])
  }

  /** Everything the trace writes to the upstream socket, in order. */
  function Written(trace: seq<Action>): string {
    if |trace| == 0 then []
    else (if trace[0].Write? then trace[0].chunk else []) + Written(trace[1..])
  }

  lemma {:induction false} WrittenAppend(a: seq<Action>, b: seq<Action>)
    ensures Written(a + b) == Written(a) + Written(b)
    decreases |a|
  {
    if |a| == 0 {
      assert a + b == b;
    } else {
      assert (a + b)[1..] == a[1..] + b;
      WrittenAppend(a[1..], b);
    }
  }

  lemma {:induction false} WrittenWriteActions(ws: seq<string>)
    ensures Written(WriteActions(ws)) == Text.Concat(ws)
    decreases |ws|
  {
    if |ws| > 0 {
      assert WriteActions(ws)[1..] == WriteActions(ws[1..]);
      WrittenWriteActions(ws[1..]);
    }
  }

  /** How many upstream connections the trace opens. */
  function Opened(trace: seq<Action>): nat {
    if |trace| == 0 then 0
    else (if trace[0].OpenUpstream? then 1 else 0) + Opened(trace[1..])
  }

  predicate IsRelayAction(a: Action) {
    a.Pipe? || a.OnClose? || a.OnError?
  }

  /**
    The method guard: a request whose method is anything but exactly
    `CONNECT` opens no upstream connection and gets nothing written
    upstream, established or not. Node's server emits `"connect"` only for
    the `CONNECT` method, so through that server the guard never fires; it
    is a defensive check.
  */
  lemma RejectedWritesNothing(cfg: Config, req: Request, connected: bool)
    requires !IsConnect(req.verb)
    ensures Opened(Handle(cfg, req, connected)) == 0
    ensures Written(Handle(cfg, req, connected)) == []
  {
    assert Handle(cfg, req, connected)[1..] == [];
  }

  /** A CONNECT request opens exactly one upstream connection, to the configured proxy. */
  lemma ConnectOpensOnce(cfg: Config, req: Request, connected: bool)
    requires IsConnect(req.verb)
    ensures Opened(Handle(cfg, req, connected)) == 1
    ensures forall i :: (0 <= i < |Handle(cfg, req, connected)| && Handle(cfg, req, connected)[i].OpenUpstream?
      ==> Handle(cfg, req, connected)[i] == OpenUpstream(cfg.host, cfg.port))
  {
    var trace := Handle(cfg, req, connected);
    var open := [OpenUpstream(cfg.host, cfg.port)];
    assert Opened(open) == 1 by {
      assert open[1..] == [];
    }
    if connected {
      var ws := Handshake.Writes(req.url, req.headers, CredentialOf(cfg));
      var acts := WriteActions(ws) + Relay;
      NoOpenInWritesAndRelay(ws);
      assert trace == open + acts;
      OpenedAppend(open, acts);
      forall i | 1 <= i < |trace| ensures !trace[i].OpenUpstream? {
        assert trace[i] == acts[i - 1];
        assert acts[i - 1] in acts;
      }
    } else {
      assert trace == open;
    }
  }

  lemma {:induction false} OpenedNone(trace: seq<Action>)
    requires forall i :: 0 <= i < |trace| ==> !trace[i].OpenUpstream?
    ensures Opened(trace) == 0
    decreases |trace|
  {
    if |trace| > 0 {
      OpenedNone(trace[1..]);
    }
  }

  lemma {:induction false} OpenedAppend(a: seq<Action>, b: seq<Action>)
    ensures Opened(a + b) == Opened(a) + Opened(b)
    decreases |a|
  {
    if |a| == 0 {
      assert a + b == b;
    } else {
      assert (a + b)[1..] == a[1..] + b;
      OpenedAppend(a[1..], b);
    }
  }

  lemma NoOpenInWritesAndRelay(ws: seq<string>)
    ensures Opened(WriteActions(ws) + Relay) == 0
    ensures forall a :: a in WriteActions(ws) + Relay ==> !a.OpenUpstream?
  {
    var acts := WriteActions(ws);
    assert forall a :: a in acts ==> a.Write?;
    assert forall a :: a in Relay ==> !a.OpenUpstream?;
    OpenedNone(acts);
    OpenedNone(Relay);
    OpenedAppend(acts, Relay);
  }

  lemma {:induction false} WrittenNone(trace: seq<Action>)
    requires forall i :: 0 <= i < |trace| ==> !trace[i].Write?
    ensures Written(trace) == []
    decreases |trace|
  {
    if |trace| > 0 {
      WrittenNone(trace[1..]);
    }
  }

  /**
    Once the upstream connection is established, the text handed to `write` is
    exactly the handshake; when it is not, nothing is written.
  */
  lemma WrittenIsHandshake(cfg: Config, req: Request, connected: bool)
    requires IsConnect(req.verb)
    ensures Written(Handle(cfg, req, connected))
         == if connected then Handshake.Serialize(req.url, req.headers, CredentialOf(cfg)) else []
  {
    var ws := Handshake.Writes(req.url, req.headers, CredentialOf(cfg));
    var open := [OpenUpstream(cfg.host, cfg.port)];
    WrittenNone(open);
    WrittenNone(Relay);
    if connected {
      assert Handle(cfg, req, connected) == open + (WriteActions(ws) + Relay);
      WrittenAppend(open, WriteActions(ws) + Relay);
      WrittenAppend(WriteActions(ws), Relay);
      WrittenWriteActions(ws);
    } else {
      assert Handle(cfg, req, connected) == open;
    }
  }

  /**
    Every handshake write happens before either pipe or teardown listener is
    installed, and relaying starts right after the last write, without
    waiting for the upstream's reply.
  */
  lemma WritesPrecedeRelay(cfg: Config, req: Request)
    requires IsConnect(req.verb)
    ensures var trace := Handle(cfg, req, true);
      forall i, j :: 0 <= i < |trace| && 0 <= j < |trace| && trace[i].Write? && IsRelayAction(trace[j]) ==> i < j
    ensures var trace, n := Handle(cfg, req, true), |Handshake.Writes(req.url, req.headers, CredentialOf(cfg))|;
      n + 1 < |trace| && trace[n + 1] == Pipe(Teardown.Upstream, Teardown.Client)
  {
    var trace := Handle(cfg, req, true);
    var n := |Handshake.Writes(req.url, req.headers, CredentialOf(cfg))|;
    assert |trace| == n + 7;
    forall i | 0 <= i < |trace| ensures (trace[i].Write? <==> 1 <= i <= n) && (IsRelayAction(trace[i]) <==> n < i) {
      if 1 <= i <= n {
        assert trace[i] == OnConnected(cfg, req)[i - 1];
      }
    }
  }

  /**
    An established tunnel relays in both directions and watches both sockets
    for `close` and `error`, which is what the teardown model assumes.
  */
  lemma RelayInstalled(cfg: Config, req: Request)
    requires IsConnect(req.verb)
    ensures var trace := Handle(cfg, req, true);
      && Pipe(Teardown.Upstream, Teardown.Client) in trace && Pipe(Teardown.Client, Teardown.Upstream) in trace
      && (forall s: Teardown.Side :: OnClose(s) in trace && OnError(s) in trace)
  {
    var trace := Handle(cfg, req, true);
    var prefix := [OpenUpstream(cfg.host, cfg.port)] + WriteActions(Handshake.Writes(req.url, req.headers, CredentialOf(cfg)));
    assert trace == prefix + Relay;
    RelayFollows(prefix);
  }

  lemma RelayFollows(prefix: seq<Action>)
    ensures var trace := prefix + Relay;
      && Pipe(Teardown.Upstream, Teardown.Client) in trace && Pipe(Teardown.Client, Teardown.Upstream) in trace
      && (forall s: Teardown.Side :: OnClose(s) in trace && OnError(s) in trace)
  {
    assert Relay[0] == Pipe(Teardown.Upstream, Teardown.Client) && Relay[3] == Pipe(Teardown.Client, Teardown.Upstream);
    assert Relay[1] == OnClose(Teardown.Upstream) && Relay[2] == OnError(Teardown.Upstream);
    assert Relay[4] == OnClose(Teardown.Client) && Relay[5] == OnError(Teardown.Client);
    forall s: Teardown.Side ensures OnClose(s) in Relay && OnError(s) in Relay {
      match s
      case Client =>
      case Upstream =>
    }
  }
}
