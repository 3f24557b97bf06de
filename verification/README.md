# http-proxy-escalator: the CONNECT handler in Dafny

The escalator is a local HTTP proxy. It tunnels every `CONNECT` it
receives through an upstream HTTPS proxy and adds the upstream's
credential on the way. This project models the server's `"connect"`
listener (index.ts:40-83) and proves properties of the model. The
listener has four parts:

- **Method guard**: a request whose method is not exactly `CONNECT` is
  destroyed. Nothing is opened and nothing is written upstream. Node's
  HTTP server emits `"connect"` only for the `CONNECT` method (its parser
  rejects a lowercase `connect`), so this guard is unreachable through the
  server of index.ts:38-40; a plain `GET` reaches the empty request handler
  instead and is never answered.
- **Handshake serialiser**: once the upstream socket is open, the
  listener writes four kinds of line, each ended by a bare `\n`:
  - the request line `CONNECT <target> HTTP/1.1`;
  - one `key: value` line per inbound header;
  - the injected `Proxy-Authorization` line;
  - a blank line.
- **Credential injector**: `Basic ` followed by the Base64 form
  (section 4 of RFC 4648) of the UTF-8 octets (RFC 3629) of
  `username:password`. This is the Basic scheme of section 2 of RFC 7617.
- **Paired teardown**: a `close` or `error` on either socket destroys the
  other one.

The modules follow that structure:

| module | file | contents |
|---|---|---|
| `Common` | common.dfy | octets and `Option` |
| `Text` | text.dfy | split at the first separator; concatenation of writes |
| `Base64` | base64.dfy | RFC 4648 encoder and its strict decoder |
| `Utf8` | utf8.dfy | RFC 3629 encoder and its strict decoder (what `Buffer.from(string)` does) |
| `BasicAuth` | basic_auth.dfy | the injected header value and the receiving side of RFC 7617 |
| `Handshake` | handshake.dfy | the writes of index.ts:54-64 and a line parser that reads them back |
| `Teardown` | teardown.dfy | the two-socket state, one listener run, the event loop |
| `ConnectHandler` | connect_handler.dfy | the listener as an ordered trace of effects |

Most operations come with an inverse or an invariant that is proved against them:

- Base64 and UTF-8 each have a decoder, and both round trips are proved.
- The injector has the RFC 7617 parser. Splitting at the first colon gives
  the credential back.
- The serialiser has a parser. It reads back the target and the headers.
- The teardown step is proved absorbing and mirror-symmetric, every
  event loop that handles an event ends with both sockets destroyed, and
  the number of listener runs is bounded.

The handler does not call the network here. Whether the upstream
connection is established is an input to `ConnectHandler.Handle`. The
result is the ordered list of what the listener does:

- destroy the request;
- open the upstream connection;
- each `write`;
- each `pipe`;
- each `close` or `error` listener.

Three behaviours of the code are worth stating plainly:

- **Inbound `proxy-authorization`.** The handler copies every inbound
  header (index.ts:55-57) and then appends its own `Proxy-Authorization`
  (index.ts:59-62); it does not overwrite or drop an inbound one. An
  inbound `proxy-authorization` therefore reaches the upstream, followed
  by the injected one. `Handshake.ParseSerialize` states exactly this.
  With two inbound copies only the first one reaches the handler, since
  Node keeps the first value of `proxy-authorization` and discards the
  others.
- **Header names are lowercased.** The handler writes the keys of
  `Object.keys(req.headers)` (index.ts:55-56), which Node has lowercased,
  so an inbound `Foo: bar` reaches the upstream as `foo: bar`.
- **Connection failure.** No `error` listener is installed on the
  upstream socket before it connects (index.ts:48-53); the only callback
  passed to `net.createConnection` is the connect callback.
- **Plain-HTTP requests.** The request handler is empty (index.ts:38).

## Model

| member | source | states |
|---|---|---|
| ConnectHandler.Handle | index.ts:40-83 | exactly the non-`CONNECT` methods lead to a destroyed request and nothing else; a `CONNECT` first opens the upstream connection to the configured host and port |
| ConnectHandler.RejectedWritesNothing | index.ts:43-46 | a method other than exactly `CONNECT` opens no upstream connection and writes nothing upstream (a defensive check: Node's server emits `"connect"` only for `CONNECT`) |
| ConnectHandler.ConnectOpensOnce | index.ts:48-53 | a `CONNECT` opens exactly one upstream connection, and only to the configured proxy host and port |
| ConnectHandler.OnConnected | index.ts:53-81 | once connected, the callback performs one write per handshake write, in order, and then installs the relay: each pipe followed by the `close` and `error` listeners on its source |
| ConnectHandler.WrittenIsHandshake | index.ts:53-64 | once the connection is established, the text handed to `write` is exactly the handshake; otherwise nothing is written |
| ConnectHandler.WritesPrecedeRelay | index.ts:54-74 | every handshake write comes before every pipe and teardown listener, and the upstream-to-client pipe follows the last write directly, without waiting for a reply |
| ConnectHandler.RelayInstalled | index.ts:66-80 | an established tunnel pipes in both directions and watches both sockets for `close` and for `error` |
| Handshake.Writes | index.ts:54-64 | the handler makes `n + 3` writes for n inbound headers: the request line first, the i-th header line at position i + 1, then the injected `Proxy-Authorization` line, and `\n` last |
| Handshake.HeaderWrites | index.ts:55-57 | one `key: value\n` write per inbound header, in iteration order, none dropped, added or reordered |
| Handshake.SerializeLayout | index.ts:54-64 | the handshake is the request line, then the inbound header lines followed by the injected line, then the blank line |
| Handshake.Framing | index.ts:54-64 | the handshake starts with `CONNECT <target> HTTP/1.1\n` (target unchanged), ends with the injected header line and `\n`, and so ends in `\n\n` |
| Handshake.SerializeNoCarriageReturn | index.ts:54-64 | the handshake contains no `\r` when the target and the inbound headers contain none |
| Handshake.ParseSerialize | index.ts:54-64 | a line reader gets back exactly the target and the inbound headers in order, an inbound `proxy-authorization` included, followed by one injected `Proxy-Authorization`; nothing follows the blank line |
| Handshake.Example | index.ts:54-64 | `CONNECT example.com:443` with an inbound `Foo: bar`, which Node hands over as `("foo", "bar")`, and alice / secret gives `CONNECT example.com:443 HTTP/1.1\nfoo: bar\nProxy-Authorization: Basic YWxpY2U6c2VjcmV0\n\n` |
| BasicAuth.UserPass | index.ts:60 | the `${username}:${password}` text splits at its first colon back into user name and password whenever the user name has no colon |
| BasicAuth.UserPassOctets | index.ts:59-60 | `Buffer.from` of the user-pass text: octets that the strict UTF-8 decoder turns back into exactly that text, one to four per character |
| BasicAuth.Inject | index.ts:59-61 | the value is `Basic ` followed by 4·⌈n/3⌉ characters for n user-pass octets |
| BasicAuth.InjectShape | index.ts:59-61 | after `Basic ` only Base64 alphabet characters and `=` appear, and the value has no line feed or carriage return |
| BasicAuth.SplitUserPass | index.ts:59-60 | the receiver splits user-pass text exactly when it has a colon; the user name has no colon and rejoins with the password into the text |
| BasicAuth.ParseInject | index.ts:59-61 | a receiver following RFC 7617 recovers the configured credential from the value when the user name has no colon |
| BasicAuth.InjectInjective | index.ts:59-61 | distinct credentials with colon-free user names give distinct header values |
| BasicAuth.ColonAmbiguity | index.ts:59-60 | a colon moved between the user name and the password leaves the value unchanged |
| BasicAuth.AliceExample | index.ts:59-61 | alice / secret gives `Basic YWxpY2U6c2VjcmV0` |
| BasicAuth.EmptyCredentialExample | index.ts:59-61 | a proxy URL without user information still yields a header, `Basic Og==` (the Base64 form of a lone colon) |
| Base64.Encode | index.ts:60-61 | 4·⌈n/3⌉ characters for n octets |
| Base64.EncodeShape | index.ts:60-61 | every character is from the alphabet or is `=`, and `=` fills exactly the last (3 − n mod 3) mod 3 positions |
| Base64.DecodeEncode | index.ts:60-61 | the strict decoder returns exactly the encoded octets |
| Base64.EncodeDecode | index.ts:60-61 | every text the strict decoder accepts is the encoding of what it decodes to |
| Base64.EncodeInjective | index.ts:60-61 | distinct octet sequences have distinct encodings |
| Utf8.Encode | index.ts:59-60 | between one and four octets per character |
| Utf8.EncodeAscii | index.ts:59-60 | ASCII text gives one octet per character, equal to the character's code |
| Utf8.DecodeEncode | index.ts:59-60 | the strict decoder returns exactly the encoded text |
| Utf8.EncodeInjective | index.ts:59-60 | distinct strings have distinct octets |
| Teardown.Destroy | index.ts:68 | destroying a socket marks it destroyed and leaves the other socket as it was |
| Teardown.Step | index.ts:67-80 | after any listener run both sockets are destroyed; the events it causes are `close` events of sockets that were still open, the other socket's among them |
| Teardown.Settle | index.ts:66-80 | from any state, once any `close` or `error` reaching the installed listeners has been handled, in either direction, both sockets end destroyed; with no event nothing changes |
| Teardown.Runs | index.ts:66-80 | teardown takes at least one listener run per queued event and at most two more, one per open socket |
| Teardown.StepAbsorbing | index.ts:67-80 | an event after both sockets are destroyed changes nothing and causes nothing |
| Teardown.StepMirror | index.ts:67-80 | the listeners are mirror images: swapping client and upstream in the state and the event swaps them in the resulting state and in every event the run causes |

## Left out

- `loadConfig` (index.ts:15-34) is left out: it only reads environment variables and parses a URL. The handler receives the host, the port and the credential directly. User name and password are the URL's components as written, which are empty when absent (index.ts:30-31). So a proxy URL without user information still produces `Basic Og==`.
- The port is an integer as given. What `Number.parseInt` does with an empty or invalid port (NaN) is not modelled; the `ConnectHandler.Handle` line below says what that leads to.
- Listener start-up and the empty plain-HTTP request handler (index.ts:36-38) have no logic to model.
- Logging (index.ts:41) has no effect on behaviour.
- Socket I/O is an action in the trace, and its effect on bytes is not modelled: connection set-up, `write` with its buffering and back-pressure, and the `pipe` relay of bytes (index.ts:48-53, 66, 74).
- The `head` argument of the listener (index.ts:40) is not modelled. It holds bytes the client sent after its request head, and the handler ignores it, so the model has nothing for them either.
- ConnectHandler.Handle: a failed upstream connection is modelled only as "nothing is written" (`connected = false`, trace `[OpenUpstream]`). The code passes `net.createConnection` only a connect callback and installs no `error` listener before the connection is established (index.ts:48-53). A refused or unreachable upstream therefore emits an `error` nobody listens to; Node throws it, no `uncaughtException` handler exists, and the whole escalator process exits, ending every other open tunnel. The same happens when the configured port is not a number (index.ts:29), since `createConnection` then throws inside the listener. Process termination is outside the model.
- ConnectHandler.WrittenIsHandshake: states the text handed to `write`, not the octets on the wire. `conn.write(string)` sends the UTF-8 form of the text (the conversion `Utf8.Encode` models), and Node hands header bytes to the handler as Latin-1 characters, so a non-ASCII byte in the target or a header value reaches the upstream as two octets. For ASCII text the two coincide (`Utf8.EncodeAscii`).
- Node's header object is taken as already built:
  - keys are lowercased;
  - for duplicate headers, Node keeps only the first value of a fixed list of headers (`proxy-authorization`, `host`, `authorization`, `content-type` and others), joins `cookie` values with `"; "`, keeps `set-cookie` as an array, and joins the values of all other headers with `", "`;
  - an array value (`set-cookie`) is stringified with commas by the template at index.ts:56.

  The model takes the headers as a sequence of name/value pairs in iteration order.
- Handshake.SerializeNoCarriageReturn: conditional on the target and the inbound headers having no `\r`. Node's HTTP parser rejects such bytes before the handler runs, but that parser is not modelled.
- Handshake.ParseSerialize: stated for inputs a line reader can delimit. Those are a target without line feed, and headers whose name has no colon or line feed and whose value has no line feed. Node's parser guarantees all of this for inbound headers.
- Utf8.Encode: JavaScript strings may hold lone UTF-16 surrogates, which `Buffer.from` replaces by U+FFFD. Dafny characters are Unicode scalar values, so such strings cannot occur in the model.
- Teardown.Step: the model assumes Node's socket behaviour.
  - A reported `error` is followed by that socket's own `close`.
  - Destroying an open socket makes it report `close`.
  - Events are handled one at a time in queue order.

  Everything else about the event loop is left out.
- Teardown.Settle: teardown starts from `Live`, with both sockets open and all four listeners installed. The listeners exist only once the connect callback has run (index.ts:66-80), and the model has no state for the time before. Events before that point behave differently:
  - An early `close` on either socket, for example a client that disconnects while the upstream connection is pending, reaches no teardown listener and is lost, since Node does not emit `close` twice. The other socket is then never destroyed.
  - An early `error` on either socket has no listener at all: Node's HTTP server removes its own `error` listener from the client socket before emitting `"connect"`, and the upstream socket has none before it connects (index.ts:48-53). The error is thrown and ends the process, as the `ConnectHandler.Handle` line above describes.
