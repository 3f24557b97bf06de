/**
  The credential injector: the `Proxy-Authorization` value of the Basic
  scheme (section 2 of RFC 7617) built from the configured user name and
  password. The receiving side of the scheme is modelled too: its parser
  recovers exactly the credential from the injected value.
*/
module BasicAuth {
  import opened Common
  import Base64
  import Utf8
  import Text

  /**
    The upstream proxy's user name and password. Both come from the
    configured proxy URL, which yields empty strings when they are absent.
  */
  datatype Credential = Credential(username: string, password: string)

  const Scheme: string := "Basic "

  /** The user-pass text of RFC 7617: user name, one colon, password. */
  function UserPass(c: Credential): (t: string)
    ensures ':' !in c.username ==> Text.SplitAtFirst(t, ':') == Some((c.username, c.password))
  {
    var t := c.username + ":" + c.password;
    assert ':' !in c.username ==> Text.SplitAtFirst(t, ':') == Some((c.username, c.password)) by {
      if ':' !in c.username {
        Text.SplitAtFirstOf(c.username, ':', c.password);
      }
    }
    t
  }

  /** The octets that are Base64-encoded: the UTF-8 form of the user-pass text. */
  function UserPassOctets(c: Credential): (o: seq<byte>)
    ensures Utf8.Decode(o) == Some(UserPass(c))
    ensures |UserPass(c)| <= |o| <= 4 * |UserPass(c)|
  {
    Utf8.DecodeEncode(UserPass(c));
    Utf8.Encode(UserPass(c))
  }

  /** The injected header value `Basic <base64(user:pass)>`: 4 * ceil(n / 3) characters after the scheme for n user-pass octets. */
  function Inject(c: Credential): (v: string)
    ensures |v| == |Scheme| + 4 * ((|UserPassOctets(c)| + 2) / 3)
    ensures v[..|Scheme|] == Scheme
  {
    Scheme + Base64.Encode(UserPassOctets(c))
  }

  /**
    After the scheme the injected value holds only Base64 alphabet
    characters and `=` padding, so it never contains a line break.
  */
  lemma InjectShape(c: Credential)
    ensures forall i :: |Scheme| <= i < |Inject(c)| ==> Base64.IsAlphabetChar(Inject(c)[i]) || Inject(c)[i] == Base64.Pad
    ensures forall i :: 0 <= i < |Inject(c)| ==> Inject(c)[i] != '\n' && Inject(c)[i] != '\r'
  {
    var v := Inject(c);
    var e := Base64.Encode(UserPassOctets(c));
    Base64.EncodeShape(UserPassOctets(c));
    forall i | 0 <= i < |v|
      ensures (|Scheme| <= i ==> Base64.IsAlphabetChar(v[i]) || v[i] == Base64.Pad) && v[i] != '\n' && v[i] != '\r'
    {
      if i >= |Scheme| {
        var k := i - |Scheme|;
        assert v[i] == e[k];
      } else {
        assert v[i] == Scheme[i];
      }
    }
  }

  /** Splits user-pass text at its first colon, as RFC 7617 prescribes. */
  function SplitUserPass(t: string): (r: Option<Credential>)
    ensures r.Some? <==> ':' in t
    ensures r.Some? ==> ':' !in r.value.username && UserPass(r.value) == t
  {
    match Text.SplitAtFirst(t, ':')
    case None => None
    case Some((user, pass)) => Some(Credential(user, pass))
  }

  /** How a receiver of the header reads it: scheme, Base64, UTF-8, first colon. */
  function ParseBasic(v: string): Option<Credential> {
    if |v| < |Scheme| || v[..|Scheme|] != Scheme then None
    else
      match Base64.Decode(v[|Scheme|..])
      case None => None
      case Some(octets) =>
        match Utf8.Decode(octets)
        case None => None
        case Some(text) => SplitUserPass(text)
  }

  /**
    The upstream reads back exactly the configured credential from the
    injected value, provided the user name has no colon (RFC 7617 forbids one).
  */
  lemma ParseInject(c: Credential)
    requires ':' !in c.username
    ensures ParseBasic(Inject(c)) == Some(c)
  {
    var v := Inject(c);
    assert v[|Scheme|..] == Base64.Encode(UserPassOctets(c));
    Base64.DecodeEncode(UserPassOctets(c));
    Utf8.DecodeEncode(UserPass(c));
    Text.SplitAtFirstOf(c.username, ':', c.password);
  }

  /** Two credentials with colon-free user names never produce the same header value. */
  lemma InjectInjective(c: Credential, d: Credential)
    requires ':' !in c.username && ':' !in d.username
    requires Inject(c) == Inject(d)
    ensures c == d
  {
    ParseInject(c);
    ParseInject(d);
  }

  /**
    Without the colon restriction the value is ambiguous: moving a colon
    between the user name and the password does not change it.
  */
  lemma ColonAmbiguity(u: string, w: string, p: string)
    ensures Inject(Credential(u + ":" + w, p)) == Inject(Credential(u, w + ":" + p))
  {
    assert UserPass(Credential(u + ":" + w, p)) == UserPass(Credential(u, w + ":" + p));
  }

  /** The value for a credential whose user-pass text, octets and Base64 text are known. */
  lemma InjectOf(c: Credential, t: string, o: seq<byte>, e: string)
    requires UserPass(c) == t && Utf8.Encode(t) == o && Base64.Encode(o) == e
    ensures Inject(c) == Scheme + e
  {
  }

  /** The octets of alice:secret, one per ASCII character. */
  const AliceOctets: seq<byte> := [97, 108, 105, 99, 101, 58, 115, 101, 99, 114, 101, 116]

  lemma AliceUserPass()
    ensures UserPass(Credential("alice", "secret")) == "alice:secret"
  {
  }

  lemma AliceUserPassOctets(t: string)
    requires t == "alice:secret"
    ensures Utf8.Encode(t) == AliceOctets
  {
    Utf8.EncodeAscii(t);
    var e := Utf8.Encode(t);
    forall i | 0 <= i < 12
      ensures e[i] == AliceOctets[i]
    {
      assert e[i] == t[i] as int;
    }
  }

  /** One step of the example: a known group in front of a known encoding. */
  lemma EncodeKnownGroup(o: seq<byte>, g: string, t: string)
    requires |o| >= 3 && Base64.EncodeGroup(o[0], o[1], o[2]) == g && Base64.Encode(o[3..]) == t
    ensures Base64.Encode(o) == g + t
  {
    Base64.EncodeUnfoldGroup(o);
  }

  lemma AliceGroups()
    ensures Base64.EncodeGroup(97, 108, 105) == "YWxp"
    ensures Base64.EncodeGroup(99, 101, 58) == "Y2U6"
    ensures Base64.EncodeGroup(115, 101, 99) == "c2Vj"
    ensures Base64.EncodeGroup(114, 101, 116) == "cmV0"
  {
    assert 97 / 4 == 24 && (97 % 4) * 16 + 108 / 16 == 22 && (108 % 16) * 4 + 105 / 64 == 49 && 105 % 64 == 41;
    assert 99 / 4 == 24 && (99 % 4) * 16 + 101 / 16 == 54 && (101 % 16) * 4 + 58 / 64 == 20 && 58 % 64 == 58;
    assert 115 / 4 == 28 && (115 % 4) * 16 + 101 / 16 == 54 && (101 % 16) * 4 + 99 / 64 == 21 && 99 % 64 == 35;
    assert 114 / 4 == 28 && (114 % 4) * 16 + 101 / 16 == 38 && (101 % 16) * 4 + 116 / 64 == 21 && 116 % 64 == 52;
  }

  /** Four known groups make a known encoding of twelve octets. */
  lemma EncodeFourGroups(o: seq<byte>, g0: string, g1: string, g2: string, g3: string)
    requires |o| == 12
    requires Base64.EncodeGroup(o[0], o[1], o[2]) == g0 && Base64.EncodeGroup(o[3], o[4], o[5]) == g1
    requires Base64.EncodeGroup(o[6], o[7], o[8]) == g2 && Base64.EncodeGroup(o[9], o[10], o[11]) == g3
    ensures Base64.Encode(o) == g0 + g1 + g2 + g3
  {
    var o3 := o[3..];
    var o6 := o3[3..];
    var o9 := o6[3..];
    assert o9[3..] == [];
    EncodeKnownGroup(o9, g3, []);
    EncodeKnownGroup(o6, g2, g3 + []);
    EncodeKnownGroup(o3, g1, g2 + (g3 + []));
    EncodeKnownGroup(o, g0, g1 + (g2 + (g3 + [])));
    Regroup(g0, g1, g2, g3);
  }

  lemma Regroup(g0: string, g1: string, g2: string, g3: string)
    ensures g0 + (g1 + (g2 + (g3 + []))) == g0 + g1 + g2 + g3
  {
    assert g3 + [] == g3;
  }

  lemma AliceBase64(o: seq<byte>)
    requires o == AliceOctets
    ensures Base64.Encode(o) == "YWxp" + "Y2U6" + "c2Vj" + "cmV0"
  {
    AliceGroups();
    assert o[0] == 97 && o[1] == 108 && o[2] == 105 && o[3] == 99 && o[4] == 101 && o[5] == 58;
    assert o[6] == 115 && o[7] == 101 && o[8] == 99 && o[9] == 114 && o[10] == 101 && o[11] == 116;
    EncodeFourGroups(o, "YWxp", "Y2U6", "c2Vj", "cmV0");
  }

  lemma AliceText()
    ensures Scheme + ("YWxp" + "Y2U6" + "c2Vj" + "cmV0") == "Basic YWxpY2U6c2VjcmV0"
  {
  }

  /** The worked example: alice / secret. */
  lemma AliceExample()
    ensures Inject(Credential("alice", "secret")) == "Basic YWxpY2U6c2VjcmV0"
  {
    AliceUserPass();
    AliceUserPassOctets("alice:secret");
    AliceBase64(AliceOctets);
    AliceText();
    InjectOf(Credential("alice", "secret"), "alice:secret", AliceOctets, "YWxp" + "Y2U6" + "c2Vj" + "cmV0");
  }

  /**
    A proxy URL without user information still gets a header: the
    user-pass text is then a lone colon.
  */
  lemma EmptyCredentialExample()
    ensures Inject(Credential("", "")) == "Basic Og=="
  {
    assert UserPass(Credential("", "")) == [':'];
    assert Utf8.Encode([':']) == [58];
    assert 58 / 4 == 14 && (58 % 4) * 16 == 32;
    assert Base64.Encode([58]) == ['O', 'g', '=', '='];
    InjectOf(Credential("", ""), [':'], [58], ['O', 'g', '=', '=']);
  }
}
