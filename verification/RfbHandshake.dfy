/**
The handshake of RFC 6143 sections 7.1 and 7.3, with version 3.7 as in its Appendix A: what
a server sends before the first message, and what the client makes of it.
*/
module RfbHandshake {
  import opened Bytes
  import opened RfbWire
  import opened RfbParse
  import opened RfbClient
  import opened RfbFraming

  /** "RFB 003.007\n" and "RFB 003.008\n" */
  const VERSION_3_7: seq<byte> := [82, 70, 66, 32, 48, 48, 51, 46, 48, 48, 55, 10]
  const VERSION_3_8: seq<byte> := [82, 70, 66, 32, 48, 48, 51, 46, 48, 48, 56, 10]
  const SECURITY_NONE: byte := 1
  const RESULT_OK: seq<byte> := [0, 0, 0, 0]

  /** `init` is everything of ServerInit before the name length; only 3.8 sends `result`. */
  datatype ServerHello = ServerHello(version: seq<byte>, types: seq<byte>, result: seq<byte>, init: seq<byte>, name: seq<byte>)

  predicate HelloFits(h: ServerHello) {
    |h.version| == 12 && |h.types| < 0x100 && |h.result| == 4 && |h.init| == 20 && |h.name| < 0x8000_0000
  }

  function ResultWire(h: ServerHello): seq<byte> {
    if h.version == VERSION_3_8 then h.result else []
  }

  function HelloWire(h: ServerHello): seq<byte> {
    h.version + [|h.types| % 0x100] + h.types + ResultWire(h) + h.init + U32(|h.name|) + h.name
  }

  /** What the client accepts. */
  predicate Acceptable(h: ServerHello) {
    && h.version in {VERSION_3_7, VERSION_3_8}
    && SECURITY_NONE in h.types
    && (h.version == VERSION_3_8 ==> h.result == RESULT_OK)
  }

  datatype Greeting =
    | Welcome(width: uint16, height: uint16, end: nat, written: seq<byte>)
    | Refused(written: seq<byte>)
    | Incomplete

  /** SetEncodings: Run Length, Raw, the MirrorLink pseudo encoding, Context Information, Desktop Size. */
  const ENCODINGS: ClientMessage := SetEncodings([-525, 0, -523, -524, -223])

  function GreetingWire(version: seq<byte>): seq<byte> {
    version + [1] + [0] + ClientWire(ENCODINGS)
  }

  function ParseInit(version: seq<byte>, b: seq<byte>, at: nat): Greeting
    requires at <= |b|
  {
    if |b| < at + 24 then Incomplete
    else
      var end := at + 24 + Read32(b, at + 20);
      if |b| < end || 0x8000_0000 <= Read32(b, at + 20) then Incomplete
      else Welcome(Read16(b, at), Read16(b, at + 2), end, GreetingWire(version))
  }

  function ParseResult(version: seq<byte>, b: seq<byte>, at: nat): Greeting
    requires at <= |b|
  {
    if version != VERSION_3_8 then ParseInit(version, b, at)
    else if |b| < at + 4 then Incomplete
    else if Slice(b, at, at + 4) != RESULT_OK then Refused(version + [1])
    else ParseInit(version, b, at + 4)
  }

  function ParseHello(b: seq<byte>, at: nat): Greeting
    requires at <= |b|
  {
    if |b| < at + 12 then Incomplete
    else
      var version := Slice(b, at, at + 12);
      if version !in {VERSION_3_7, VERSION_3_8} then Refused([])
      else if |b| < at + 13 then Incomplete
      else if b[at + 12] == 0 then Refused(version)
      else
        var end := at + 13 + b[at + 12];
        if |b| < end then Incomplete
        else if SECURITY_NONE !in Slice(b, at + 13, end) then Refused(version)
        else ParseResult(version, b, end)
  }

  lemma HelloAt(b: seq<byte>, at: nat, h: ServerHello)
    requires HelloFits(h) && At(b, at, HelloWire(h))
    ensures var t := at + 13 + |h.types|;
            var i := t + |ResultWire(h)|;
            && i + 24 + |h.name| == at + |HelloWire(h)|
            && At(b, at, h.version) && b[at + 12] == |h.types| && At(b, at + 13, h.types)
            && At(b, t, ResultWire(h)) && At(b, i, h.init)
            && Read32(b, i + 20) == |h.name|
  {
    hide At, Read32;
    var x0 := h.version;
    var x1 := x0 + [|h.types| % 0x100];
    var x2 := x1 + h.types;
    var x3 := x2 + ResultWire(h);
    var x4 := x3 + h.init;
    var x5 := x4 + U32(|h.name|);
    AtSplit(b, at, x5, h.name);
    AtSplit(b, at, x4, U32(|h.name|));
    AtU32(b, at + |x4|, |h.name|);
    AtSplit(b, at, x3, h.init);
    AtSplit(b, at, x2, ResultWire(h));
    AtSplit(b, at, x1, h.types);
    AtSplit(b, at, x0, [|h.types| % 0x100]);
    AtOctet(b, at + 12, [|h.types| % 0x100], 0);
  }

  /**
  The client goes on to the messages iff the version is 3.7 or 3.8, the security types
  contain None, and (for 3.8) the result word is zero.  It has then consumed exactly the
  handshake, and holds the size that ServerInit gave.
  */
  lemma HandshakeExact(b: seq<byte>, at: nat, h: ServerHello)
    requires HelloFits(h) && At(b, at, HelloWire(h))
    ensures ParseHello(b, at).Welcome? <==> Acceptable(h)
    ensures Acceptable(h) ==>
              ParseHello(b, at) == Welcome(Word16(h.init[0], h.init[1]), Word16(h.init[2], h.init[3]),
                                           at + |HelloWire(h)|, GreetingWire(h.version))
  {
    hide At, Slice, HelloWire, ParseResult, VERSION_3_7, VERSION_3_8, RESULT_OK;
    HelloAt(b, at, h);
    SliceAt(b, at, h.version);
    SliceAt(b, at + 13, h.types);
    if h.version in {VERSION_3_7, VERSION_3_8} {
      ResultExact(b, at + 13 + |h.types|, h);
    }
  }

  lemma ResultExact(b: seq<byte>, at: nat, h: ServerHello)
    requires HelloFits(h) && at + |ResultWire(h)| + 24 + |h.name| <= |b|
    requires At(b, at, ResultWire(h)) && At(b, at + |ResultWire(h)|, h.init)
    requires Read32(b, at + |ResultWire(h)| + 20) == |h.name|
    ensures ParseResult(h.version, b, at) ==
            if h.version == VERSION_3_8 && h.result != RESULT_OK then Refused(h.version + [1])
            else Welcome(Word16(h.init[0], h.init[1]), Word16(h.init[2], h.init[3]),
                         at + |ResultWire(h)| + 24 + |h.name|, GreetingWire(h.version))
  {
    hide At, Slice, Read16, Read32, Word16, GreetingWire, VERSION_3_8, RESULT_OK;
    SliceAt(b, at, ResultWire(h));
    InitSize(b, at + |ResultWire(h)|, h.init);
  }

  lemma InitSize(b: seq<byte>, at: nat, init: seq<byte>)
    requires |init| == 20 && At(b, at, init)
    ensures Read16(b, at) == Word16(init[0], init[1]) && Read16(b, at + 2) == Word16(init[2], init[3])
  {
    AtOctet(b, at, init, 0);
    AtOctet(b, at, init, 1);
    AtOctet(b, at, init, 2);
    AtOctet(b, at, init, 3);
  }

  /** The handshake that the octets of a welcomed stream spell. */
  function HelloFrom(b: seq<byte>, at: nat): ServerHello
    requires at <= |b| && ParseHello(b, at).Welcome?
  {
    var version := Slice(b, at, at + 12);
    var t := at + 13 + b[at + 12];
    var i := if version == VERSION_3_8 then t + 4 else t;
    ServerHello(version, Slice(b, at + 13, t), RESULT_OK, Slice(b, i, i + 20), Slice(b, i + 24, ParseHello(b, at).end))
  }

  /** Conversely, whatever stream the client goes on with starts with an acceptable handshake. */
  lemma HandshakeSound(b: seq<byte>, at: nat)
    requires at <= |b| && ParseHello(b, at).Welcome?
    ensures var h := HelloFrom(b, at);
            HelloFits(h) && Acceptable(h) && Spans(b, at, ParseHello(b, at).end, HelloWire(h))
  {
    hide Slice, Read32, GreetingWire;
    var h := HelloFrom(b, at);
    var t := at + 13 + b[at + 12];
    var i := if h.version == VERSION_3_8 then t + 4 else t;
    var end := ParseHello(b, at).end;
    SliceEmpty(b, t);
    HelloSpans(b, at, t, i, end, h);
  }

  lemma HelloSpans(b: seq<byte>, at: nat, t: nat, i: nat, end: nat, h: ServerHello)
    requires at + 13 <= t <= i && i + 24 <= end <= |b|
    requires h.version == Slice(b, at, at + 12) && b[at + 12] == |h.types| && h.types == Slice(b, at + 13, t)
    requires Slice(b, t, i) == ResultWire(h)
    requires h.init == Slice(b, i, i + 20) && Read32(b, i + 20) == |h.name| && h.name == Slice(b, i + 24, end)
    ensures Spans(b, at, end, HelloWire(h))
  {
    hide Slice, Read32, ResultWire, At;
    AtSlice(b, at, at + 12);
    AtOne(b, at + 12);
    AtSlice(b, at + 13, t);
    AtSlice(b, t, i);
    AtSlice(b, i, i + 20);
    AtRead32(b, i + 20);
    AtSlice(b, i + 24, end);
    var x1 := h.version + [|h.types| % 0x100];
    var x2 := x1 + h.types;
    var x3 := x2 + ResultWire(h);
    var x4 := x3 + h.init;
    AtSplit(b, at, h.version, [|h.types| % 0x100]);
    AtSplit(b, at, x1, h.types);
    AtSplit(b, at, x2, ResultWire(h));
    AtSplit(b, at, x3, h.init);
    AtSplit(b, at, x4, U32(|h.name|));
    AtSplit(b, at, x4 + U32(|h.name|), h.name);
  }

  /** What the client writes, as a server reads it: version, security type 1, shared flag 0, and the five encodings. */
  lemma GreetingOctets(version: seq<byte>)
    requires |version| == 12
    ensures var sent := GreetingWire(version);
            && sent == version + [1, 0] + ClientWire(SetEncodings([-525, 0, -523, -524, -223]))
            && sent[..12] == version && sent[12] == 1 && sent[13] == 0
            && ParseClients(sent, 14) == Ok([SetEncodings([-525, 0, -523, -524, -223])], |sent|)
  {
    hide ClientWire, ParseClient, At;
    var sent, c := GreetingWire(version), SetEncodings([-525, 0, -523, -524, -223]);
    assert sent == (version + [1, 0]) + ClientWire(c);
    AtAll(sent);
    AtSplit(sent, 0, version + [1, 0], ClientWire(c));
    ClientRoundTrip(sent, 14, c);
    assert [c] + [] == [c];
  }

  /** Acceptance in the octets of the standard: "RFB 003.007\n" or "RFB 003.008\n", type 1, and a zero word for the latter. */
  lemma AcceptableExactly(h: ServerHello)
    ensures Acceptable(h) <==>
            && 1 in h.types
            && (|| h.version == [82, 70, 66, 32, 48, 48, 51, 46, 48, 48, 55, 10]
                || (h.version == [82, 70, 66, 32, 48, 48, 51, 46, 48, 48, 56, 10] && h.result == [0, 0, 0, 0]))
  {
    assert VERSION_3_7[10] != VERSION_3_8[10];
  }

  /** The layout of what a server sends: only version 3.8 has a result word. */
  lemma HelloOctets(h: ServerHello)
    requires HelloFits(h)
    ensures |h.version| == 12 && |h.result| == 4 && |h.init| == 20
    ensures var head := h.version + [|h.types|] + h.types;
            var n := |h.name|;
            var tail := h.init + [n / 16777216, n / 65536 % 256, n / 256 % 256, n % 256] + h.name;
            && (h.version == [82, 70, 66, 32, 48, 48, 51, 46, 48, 48, 56, 10] ==> HelloWire(h) == head + h.result + tail)
            && (h.version == [82, 70, 66, 32, 48, 48, 51, 46, 48, 48, 55, 10] ==> HelloWire(h) == head + tail)
  {
    hide U32;
    FourLengthOctets(|h.name|);
    assert VERSION_3_7[10] != VERSION_3_8[10];
  }

  lemma FourLengthOctets(n: uint32)
    ensures U32(n) == [n / 16777216, n / 65536 % 256, n / 256 % 256, n % 256]
  {
    assert n / 16777216 < 256;
  }

  /** What has been written when a handshake is refused: nothing, the version, or that and the security type. */
  lemma RefusalExact(b: seq<byte>, at: nat, h: ServerHello)
    requires HelloFits(h) && At(b, at, HelloWire(h)) && !Acceptable(h)
    ensures ParseHello(b, at) ==
            Refused(if h.version !in {VERSION_3_7, VERSION_3_8} then []
                    else if 1 !in h.types then h.version
                    else h.version + [1])
  {
    hide At, Slice, HelloWire, ParseResult, VERSION_3_7, VERSION_3_8, RESULT_OK;
    HelloAt(b, at, h);
    SliceAt(b, at, h.version);
    SliceAt(b, at + 13, h.types);
    if h.version in {VERSION_3_7, VERSION_3_8} {
      ResultExact(b, at + 13 + |h.types|, h);
    }
  }

  /** The encoding of SetEncodings that only announces a MirrorLink client. */
  const MIRROR_LINK: int32 := -523

  /**
  What is advertised against what is framed.  A rectangle of an encoding that is not advertised,
  and of the announcement alone among those that are, is recovered iff it has no payload; every
  other advertised encoding is recovered under the condition on its content.
  */
  lemma AdvertisedIsFramed(s: State, b: seq<byte>, at: nat, r: Rect)
    requires RectLegal(r) && At(b, at, RectWire(r))
    ensures var p := ParseRect(s, b, at);
            var advertised := Encoding(r) in ENCODINGS.encodings && Encoding(r) != MIRROR_LINK;
            && (p.Ok? && p.value == r <==> if advertised then RectConforms(s, r) else PayloadWire(r) == [])
            && (advertised <==> !r.OtherEncoding?)
  {
    hide At, ParseRect, RectWire;
    RectExact(s, b, at, r);
    var e := ENCODINGS.encodings;
    assert e[0] == RUN_LENGTH && e[1] == RAW && e[2] == MIRROR_LINK && e[3] == CONTEXT_INFORMATION && e[4] == DESKTOP_SIZE;
  }

  /**
  A whole stream: after an acceptable handshake the message loop recovers what the server has
  sent so far iff it conforms, and if that ends with a ByeBye it stops with the last octet.
  */
  lemma WholeStream(b: seq<byte>, h: ServerHello, messages: seq<ServerMessage>, displayInfo: seq<byte>, eventInfo: seq<byte>)
    requires HelloFits(h) && Acceptable(h) && Orderly(messages)
    requires b == HelloWire(h) + MessagesWire(messages)
    ensures var g := ParseHello(b, 0);
            && g.Welcome? && g.end <= |b|
            && var s := State(0, g.width, g.height, displayInfo, eventInfo);
               var p := ParseFirst(s, b, g.end, |messages|);
               && (p.Ok? && p.value == messages <==> MessagesConform(s, messages))
               && (MessagesConform(s, messages) ==> p == Ok(messages, |b|))
               && (MessagesConform(s, messages) && Ended(messages) ==> ParseSession(s, b, g.end) == Ok(messages, |b|))
  {
    hide At, Word16, GreetingWire, HelloWire, MessagesWire, MessagesConform, ParseHello, ParseSession, ParseFirst, Acceptable, Orderly, Ended;
    AtAll(b);
    AtSplit(b, 0, HelloWire(h), MessagesWire(messages));
    HandshakeExact(b, 0, h);
    var g := ParseHello(b, 0);
    var s := State(0, g.width, g.height, displayInfo, eventInfo);
    RunRoundTrip(s, b, g.end, messages);
    SessionIsFirst(s, b, g.end, |messages|);
  }
}
