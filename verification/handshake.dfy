/**
  The tunnel handshake that the CONNECT handler writes to the upstream
  proxy once the connection is open (index.ts:54-64): the request line,
  every inbound header as `key: value`, the injected `Proxy-Authorization`
  header and a blank line, each terminated by a bare `\n`. A line parser
  reads the handshake back, which shows the layout is unambiguous.
*/
module Handshake {
  import opened Common
  import Text
  import BasicAuth

  /** One inbound header, name and value, in the order the handler visits them. */
  type Header = (string, string)

  const AuthorizationName: string := "Proxy-Authorization"

  /** `CONNECT <target> HTTP/1.1`, with the inbound target unchanged. */
  function RequestLine(target: string): string {
    "CONNECT " + target + " HTTP/1.1\n"
  }

  function HeaderLine(h: Header): string {
    h.0 + ": " + h.1 + "\n"
  }

  /** The header the proxy adds to every tunnel request. */
  function AuthorizationHeader(cred: BasicAuth.Credential): Header {
    (AuthorizationName, BasicAuth.Inject(cred))
  }

  /** One write per header, in the given order. */
  function HeaderWrites(headers: seq<Header>): (ws: seq<string>)
    ensures |ws| == |headers|
    ensures forall i :: 0 <= i < |headers| ==> ws[i] == HeaderLine(headers[i])
  {
    if |headers| == 0 then [] else [HeaderLine(headers[0])] + HeaderWrites(headers[1..])
  }

  /**
    The successive `conn.write` arguments of the handler: the request
    line, the inbound headers, the injected header, the blank line.
  */
  function Writes(target: string, headers: seq<Header>, cred: BasicAuth.Credential): (ws: seq<string>)
    ensures |ws| == |headers| + 3
    ensures ws[0] == RequestLine(target)
    ensures forall i :: 0 <= i < |headers| ==> ws[i + 1] == HeaderLine(headers[i])
    ensures ws[|ws| - 2] == HeaderLine(AuthorizationHeader(cred)) && ws[|ws| - 1] == "\n"
  {
    [RequestLine(target)] + HeaderWrites(headers) + [HeaderLine(AuthorizationHeader(cred)), "\n"]
  }

  /** The text the upstream receives before any relayed byte. */
  function Serialize(target: string, headers: seq<Header>, cred: BasicAuth.Credential): string {
    Text.Concat(Writes(target, headers, cred))
  }

  /** The header lines, back to back. */
  function HeaderBlock(headers: seq<Header>): string {
    Text.Concat(HeaderWrites(headers))
  }

  lemma HeaderBlockCons(h: Header, hs: seq<Header>)
    ensures HeaderBlock([h] + hs) == HeaderLine(h) + HeaderBlock(hs)
  {
    assert ([h] + hs)[1..] == hs;
  }

  lemma HeaderBlockSnoc(hs: seq<Header>, h: Header)
    ensures HeaderBlock(hs + [h]) == HeaderBlock(hs) + HeaderLine(h)
  {
    assert HeaderWrites(hs + [h]) == HeaderWrites(hs) + [HeaderLine(h)];
    Text.ConcatAppend(HeaderWrites(hs), [HeaderLine(h)]);
  }

  /**
    The wire layout of the handshake: request line, the inbound headers
    followed by the injected one, and the blank line.
  */
  lemma SerializeLayout(target: string, headers: seq<Header>, cred: BasicAuth.Credential)
    ensures Serialize(target, headers, cred)
         == RequestLine(target) + HeaderBlock(headers + [AuthorizationHeader(cred)]) + "\n"
  {
    var a := HeaderLine(AuthorizationHeader(cred));
    var ws := Writes(target, headers, cred);
    assert ws == [RequestLine(target)] + (HeaderWrites(headers) + [a, "\n"]);
    Text.ConcatAppend([RequestLine(target)], HeaderWrites(headers) + [a, "\n"]);
    Text.ConcatAppend(HeaderWrites(headers), [a, "\n"]);
    Text.ConcatPair(RequestLine(target), "");
    Text.ConcatPair(a, "\n");
    HeaderBlockSnoc(headers, AuthorizationHeader(cred));
  }

  lemma HeaderLineEnds(h: Header)
    ensures |HeaderLine(h)| >= 1 && HeaderLine(h)[|HeaderLine(h)| - 1] == '\n'
  {
  }

  /** Framing facts of any text laid out as request line, header block, last header line and blank line. */
  lemma FramingOf(msg: string, r: string, m: string, a: string)
    requires msg == r + (m + a) + "\n"
    requires |a| >= 1 && a[|a| - 1] == '\n'
    ensures |r| <= |msg| && msg[..|r|] == r
    ensures |a + "\n"| <= |msg| && msg[|msg| - |a + "\n"|..] == a + "\n"
    ensures |msg| >= 2 && msg[|msg| - 2] == '\n' && msg[|msg| - 1] == '\n'
  {
    var tail := a + "\n";
    assert msg == r + (m + tail);
    assert msg[..|r|] == r;
    assert msg == (r + m) + tail;
    assert msg[|r + m|..] == tail;
    assert tail[|tail| - 2] == a[|a| - 1];
    assert msg[|msg| - 2] == tail[|tail| - 2];
  }

  /**
    The handshake opens with the request line carrying the inbound target
    unchanged and closes with the injected header line and the blank line,
    so it ends in two bare line feeds.
  */
  lemma Framing(target: string, headers: seq<Header>, cred: BasicAuth.Credential)
    ensures var msg, first := Serialize(target, headers, cred), RequestLine(target);
      && |first| <= |msg| && msg[..|first|] == first
    ensures var msg, last := Serialize(target, headers, cred), HeaderLine(AuthorizationHeader(cred)) + "\n";
      && |last| <= |msg| && msg[|msg| - |last|..] == last
    ensures var msg := Serialize(target, headers, cred);
      |msg| >= 2 && msg[|msg| - 2] == '\n' && msg[|msg| - 1] == '\n'
  {
    SerializeLayout(target, headers, cred);
    HeaderBlockSnoc(headers, AuthorizationHeader(cred));
    HeaderLineEnds(AuthorizationHeader(cred));
    FramingOf(Serialize(target, headers, cred), RequestLine(target), HeaderBlock(headers), HeaderLine(AuthorizationHeader(cred)));
  }

  predicate NoCarriageReturn(s: string) {
    forall i :: 0 <= i < |s| ==> s[i] != '\r'
  }

  lemma NoCarriageReturnAppend(a: string, b: string)
    requires NoCarriageReturn(a) && NoCarriageReturn(b)
    ensures NoCarriageReturn(a + b)
  {
    forall i | 0 <= i < |a + b| ensures (a + b)[i] != '\r' {
      if i >= |a| { assert (a + b)[i] == b[i - |a|]; }
    }
  }

  lemma {:induction false} HeaderBlockNoCarriageReturn(hs: seq<Header>)
    requires forall i :: 0 <= i < |hs| ==> NoCarriageReturn(hs[i].0) && NoCarriageReturn(hs[i].1)
    ensures NoCarriageReturn(HeaderBlock(hs))
    decreases |hs|
  {
    if |hs| > 0 {
      var h := hs[0];
      assert [h] + hs[1..] == hs;
      HeaderBlockCons(h, hs[1..]);
      HeaderBlockNoCarriageReturn(hs[1..]);
      NoCarriageReturnAppend(h.0, ": ");
      NoCarriageReturnAppend(h.0 + ": ", h.1);
      NoCarriageReturnAppend(h.0 + ": " + h.1, "\n");
      NoCarriageReturnAppend(HeaderLine(h), HeaderBlock(hs[1..]));
    }
  }

  lemma AuthorizationNoCarriageReturn(cred: BasicAuth.Credential)
    ensures NoCarriageReturn(AuthorizationHeader(cred).0) && NoCarriageReturn(AuthorizationHeader(cred).1)
  {
    BasicAuth.InjectShape(cred);
  }

  /**
    Every line ending the handler writes is a bare `\n`: when the target and
    the inbound headers hold no carriage return, neither does the handshake.
  */
  lemma SerializeNoCarriageReturn(target: string, headers: seq<Header>, cred: BasicAuth.Credential)
    requires NoCarriageReturn(target)
    requires forall i :: 0 <= i < |headers| ==> NoCarriageReturn(headers[i].0) && NoCarriageReturn(headers[i].1)
    ensures NoCarriageReturn(Serialize(target, headers, cred))
  {
    var auth := AuthorizationHeader(cred);
    var all := headers + [auth];
    AuthorizationNoCarriageReturn(cred);
    forall i | 0 <= i < |all|
      ensures NoCarriageReturn(all[i].0) && NoCarriageReturn(all[i].1)
    {
      if i < |headers| { assert all[i] == headers[i]; }
    }
    HeaderBlockNoCarriageReturn(all);
    SerializeLayout(target, headers, cred);
    NoCarriageReturnAppend("CONNECT ", target);
    NoCarriageReturnAppend("CONNECT " + target, " HTTP/1.1\n");
    NoCarriageReturnAppend(RequestLine(target), HeaderBlock(all));
    NoCarriageReturnAppend(RequestLine(target) + HeaderBlock(all), "\n");
  }

  // ---- Reading a handshake back ----

  /** A CONNECT request head as a receiver sees it: target and header list. */
  datatype Head = Head(target: string, headers: seq<Header>)

  function ParseRequestLine(line: string): Option<string> {
    if |line| >= 17 && line[..8] == "CONNECT " && line[|line| - 9..] == " HTTP/1.1"
    then Some(line[8..|line| - 9])
    else None
  }

  /** `key: value`: the name ends at the first colon, which a single space follows. */
  function ParseHeaderLine(line: string): Option<Header> {
    match Text.SplitAtFirst(line, ':')
    case None => None
    case Some((name, after)) =>
      if |after| >= 1 && after[0] == ' ' then Some((name, after[1..])) else None
  }

  /** Header lines up to the blank line, and whatever follows that blank line. */
  function ParseHeaders(s: string): Option<(seq<Header>, string)>
    decreases |s|
  {
    match Text.SplitAtFirst(s, '\n')
    case None => None
    case Some((line, rest)) =>
      if line == [] then Some(([], rest))
      else
        match ParseHeaderLine(line)
        case None => None
        case Some(h) =>
          match ParseHeaders(rest)
          case None => None
          case Some((hs, after)) => Some(([h] + hs, after))
  }

  /** A complete request head with nothing after the blank line. */
  function Parse(s: string): Option<Head> {
    match Text.SplitAtFirst(s, '\n')
    case None => None
    case Some((line, rest)) =>
      match ParseRequestLine(line)
      case None => None
      case Some(target) =>
        match ParseHeaders(rest)
        case Some((hs, after)) => if after == [] then Some(Head(target, hs)) else None
        case None => None
  }

  /**
    Headers that survive the line format: a name without colon or line
    break, a value without line break (Node's parser guarantees both).
  */
  predicate WellFormedHeader(h: Header) {
    ':' !in h.0 && '\n' !in h.0 && '\n' !in h.1
  }

  predicate WellFormed(target: string, headers: seq<Header>) {
    && '\n' !in target
    && forall i :: 0 <= i < |headers| ==> WellFormedHeader(headers[i])
  }

  lemma ParseHeaderLineOf(h: Header)
    requires WellFormedHeader(h)
    ensures ParseHeaderLine(h.0 + ": " + h.1) == Some(h)
  {
    assert h.0 + ": " + h.1 == h.0 + [':'] + (" " + h.1);
    Text.SplitAtFirstOf(h.0, ':', " " + h.1);
    assert (" " + h.1)[1..] == h.1;
  }

  lemma {:induction false} ParseHeaderBlock(hs: seq<Header>, rest: string)
    requires forall i :: 0 <= i < |hs| ==> WellFormedHeader(hs[i])
    ensures ParseHeaders(HeaderBlock(hs) + "\n" + rest) == Some((hs, rest))
    decreases |hs|
  {
    if |hs| == 0 {
      assert HeaderBlock(hs) + "\n" + rest == [] + ['\n'] + rest;
      Text.SplitAtFirstOf([], '\n', rest);
    } else {
      var h, tl := hs[0], hs[1..];
      assert [h] + tl == hs;
      HeaderBlockCons(h, tl);
      var line := h.0 + ": " + h.1;
      var more := HeaderBlock(tl) + "\n" + rest;
      assert HeaderBlock(hs) + "\n" + rest == line + ['\n'] + more;
      assert '\n' !in line;
      Text.SplitAtFirstOf(line, '\n', more);
      ParseHeaderLineOf(h);
      ParseHeaderBlock(tl, rest);
    }
  }

  lemma ParseRequestLineOf(target: string)
    ensures ParseRequestLine("CONNECT " + target + " HTTP/1.1") == Some(target)
  {
    var line := "CONNECT " + target + " HTTP/1.1";
    assert line[..8] == "CONNECT ";
    assert line[|line| - 9..] == " HTTP/1.1";
    assert line[8..|line| - 9] == target;
  }

  /** The injected header always fits the line format. */
  lemma AuthorizationWellFormed(cred: BasicAuth.Credential)
    ensures WellFormedHeader(AuthorizationHeader(cred))
  {
    BasicAuth.InjectShape(cred);
  }

  lemma AppendWellFormed(headers: seq<Header>, h: Header)
    requires forall i :: 0 <= i < |headers| ==> WellFormedHeader(headers[i])
    requires WellFormedHeader(h)
    ensures forall i :: 0 <= i < |headers + [h]| ==> WellFormedHeader((headers + [h])[i])
  {
    forall i | 0 <= i < |headers + [h]| ensures WellFormedHeader((headers + [h])[i]) {
      if i < |headers| { assert (headers + [h])[i] == headers[i]; }
    }
  }

  /**
    A receiver reads back from the handshake exactly the inbound target and
    the inbound headers, in order, none dropped or repeated (an inbound
    `proxy-authorization` included), followed by one injected
    `Proxy-Authorization` header; nothing follows the blank line.
  */
  lemma ParseSerialize(target: string, headers: seq<Header>, cred: BasicAuth.Credential)
    requires WellFormed(target, headers)
    ensures Parse(Serialize(target, headers, cred)) == Some(Head(target, headers + [AuthorizationHeader(cred)]))
  {
    var all := headers + [AuthorizationHeader(cred)];
    AuthorizationWellFormed(cred);
    AppendWellFormed(headers, AuthorizationHeader(cred));
    SerializeLayout(target, headers, cred);
    var line := "CONNECT " + target + " HTTP/1.1";
    assert RequestLine(target) == line + ['\n'];
    var rest := HeaderBlock(all) + "\n";
    assert line + ['\n'] + HeaderBlock(all) + "\n" == line + ['\n'] + rest;
    Text.SplitAtFirstOf(line, '\n', rest);
    ParseRequestLineOf(target);
    ParseHeaderBlock(all, []);
    assert rest == HeaderBlock(all) + "\n" + [];
  }

  // ---- The worked example ----

  // The three lines of the worked example, each spelled out on its own.

  lemma ExampleRequestLine()
    ensures RequestLine("example.com:443") == "CONNECT example.com:443 HTTP/1.1\n"
  {
  }

  lemma ExampleHeaderLine()
    ensures HeaderLine(("foo", "bar")) == "foo: bar\n"
  {
  }

  lemma ExampleAuthorizationLine()
    ensures HeaderLine((AuthorizationName, "Basic YWxpY2U6c2VjcmV0")) == "Proxy-Authorization: Basic YWxpY2U6c2VjcmV0\n"
  {
  }

  /** The handshake for one inbound header, assembled from its three lines. */
  lemma SerializeOneHeader(target: string, h: Header, cred: BasicAuth.Credential, request: string, line: string, auth: string)
    requires RequestLine(target) == request && HeaderLine(h) == line
    requires HeaderLine(AuthorizationHeader(cred)) == auth
    ensures Serialize(target, [h], cred) == request + line + auth + "\n"
  {
    SerializeLayout(target, [h], cred);
    HeaderBlockSnoc([h], AuthorizationHeader(cred));
    HeaderBlockCons(h, []);
    assert [h] + [] == [h];
    assert HeaderBlock([]) == [];
  }

  /**
    `CONNECT example.com:443` with an inbound `Foo: bar`, credential alice /
    secret. Node hands the handler lowercased header names, so the header
    arrives as `foo`.
  */
  lemma Example()
    ensures Serialize("example.com:443", [("foo", "bar")], BasicAuth.Credential("alice", "secret"))
         == "CONNECT example.com:443 HTTP/1.1\n" + "foo: bar\n" + "Proxy-Authorization: Basic YWxpY2U6c2VjcmV0\n" + "\n"
  {
    var target, cred := "example.com:443", BasicAuth.Credential("alice", "secret");
    BasicAuth.AliceExample();
    ExampleRequestLine();
    ExampleHeaderLine();
    ExampleAuthorizationLine();
    SerializeOneHeader(target, ("foo", "bar"), cred, "CONNECT example.com:443 HTTP/1.1\n", "foo: bar\n",
      "Proxy-Authorization: Basic YWxpY2U6c2VjcmV0\n");
  }
}
