/**
The client's side of the wire: its messages (RFC 6143 section 7.5 and the MirrorLink
extensions), how they are encoded, how a server decodes them, and which of them each server
message provokes.
*/
module RfbClient {
  import opened Bytes
  import opened RfbWire
  import opened RfbParse

  datatype PixelFormat = PixelFormat(
    bitsPerPixel: byte, depth: byte, bigEndian: byte, trueColour: byte,
    redMax: uint16, greenMax: uint16, blueMax: uint16,
    redShift: byte, greenShift: byte, blueShift: byte)

  datatype ClientMessage =
    | SetPixelFormat(format: PixelFormat)
    | SetEncodings(encodings: seq<int32>)
    | UpdateRequest(incremental: byte, x: uint16, y: uint16, width: uint16, height: uint16)
    | ClientExtension(kind: byte, payload: seq<byte>)

  const CLIENT_DISPLAY: byte := 2
  const CLIENT_EVENT: byte := 4

  predicate ClientFits(c: ClientMessage) {
    match c
    case SetEncodings(encodings) => |encodings| < 0x1_0000
    case ClientExtension(_, payload) => |payload| < 0x1_0000
    case _ => true
  }

  predicate ClientsFit(cs: seq<ClientMessage>) {
    cs == [] || (ClientFits(cs[0]) && ClientsFit(cs[1..]))
  }

  // ----- encoding -----

  function EncodingsWire(encodings: seq<int32>): seq<byte> {
    if encodings == [] then [] else I32(encodings[0]) + EncodingsWire(encodings[1..])
  }

  function FormatWire(f: PixelFormat): seq<byte> {
    [f.bitsPerPixel, f.depth, f.bigEndian, f.trueColour] + U16(f.redMax) + U16(f.greenMax) + U16(f.blueMax)
    + [f.redShift, f.greenShift, f.blueShift, 0, 0, 0]
  }

  function ClientWire(c: ClientMessage): seq<byte> {
    match c
    case SetPixelFormat(format) => [0, 0, 0, 0] + FormatWire(format)
    case SetEncodings(encodings) => [2, 0] + U16(|encodings|) + EncodingsWire(encodings)
    case UpdateRequest(incremental, x, y, width, height) =>
      [3, incremental] + U16(x) + U16(y) + U16(width) + U16(height)
    case ClientExtension(kind, payload) => [128, kind] + U16(|payload|) + payload
  }

  function ClientsWire(cs: seq<ClientMessage>): seq<byte> {
    if cs == [] then [] else ClientWire(cs[0]) + ClientsWire(cs[1..])
  }

  // ----- a server's decoding -----

  function ParseEncodings(b: seq<byte>, at: nat, n: nat): (r: Parse<seq<int32>>)
    requires at <= |b|
    ensures r.Ok? ==> at <= r.end <= |b|
    decreases n
  {
    if n == 0 then Ok([], at)
    else if |b| < at + 4 then Starved
    else
      match ParseEncodings(b, at + 4, n - 1)
      case Ok(encodings, end) => Ok([ParseEncoding(b, at)] + encodings, end)
      case failure => failure
  }

  function ParseFormat(b: seq<byte>, at: nat): PixelFormat
    requires at + 16 <= |b|
  {
    PixelFormat(b[at], b[at + 1], b[at + 2], b[at + 3],
                Read16(b, at + 4), Read16(b, at + 6), Read16(b, at + 8),
                b[at + 10], b[at + 11], b[at + 12])
  }

  function ParseClient(b: seq<byte>, at: nat): (r: Parse<ClientMessage>)
    requires at <= |b|
    ensures r.Ok? ==> at < r.end <= |b|
  {
    if |b| < at + 4 then Starved
    else
      match b[at]
      case 0 => if |b| < at + 20 then Starved else Ok(SetPixelFormat(ParseFormat(b, at + 4)), at + 20)
      case 2 => (
        match ParseEncodings(b, at + 4, Read16(b, at + 2))
        case Ok(encodings, end) => Ok(SetEncodings(encodings), end)
        case Starved => Starved
        case Undefined => Undefined)
      case 3 =>
        if |b| < at + 10 then Starved
        else Ok(UpdateRequest(b[at + 1], Read16(b, at + 2), Read16(b, at + 4), Read16(b, at + 6), Read16(b, at + 8)), at + 10)
      case 128 =>
        var end := at + 4 + Read16(b, at + 2);
        if |b| < end then Starved else Ok(ClientExtension(b[at + 1], Slice(b, at + 4, end)), end)
      case _ => Undefined
  }

  /** Everything from `at` to the end of `b`. */
  function ParseClients(b: seq<byte>, at: nat): Parse<seq<ClientMessage>>
    requires at <= |b|
    decreases |b| - at
  {
    if at == |b| then Ok([], at)
    else
      match ParseClient(b, at)
      case Ok(c, next) => (
        match ParseClients(b, next)
        case Ok(cs, end) => Ok([c] + cs, end)
        case failure => failure)
      case Starved => Starved
      case Undefined => Undefined
  }

  lemma FormatRoundTrip(b: seq<byte>, at: nat, f: PixelFormat)
    requires At(b, at, FormatWire(f))
    ensures |FormatWire(f)| == 16 && ParseFormat(b, at) == f
  {
    hide At, Read16;
    var flags := [f.bitsPerPixel, f.depth, f.bigEndian, f.trueColour];
    var shifts := [f.redShift, f.greenShift, f.blueShift, 0, 0, 0];
    AtSplit(b, at, flags + U16(f.redMax) + U16(f.greenMax) + U16(f.blueMax), shifts);
    AtSplit(b, at, flags + U16(f.redMax) + U16(f.greenMax), U16(f.blueMax));
    AtSplit(b, at, flags + U16(f.redMax), U16(f.greenMax));
    AtSplit(b, at, flags, U16(f.redMax));
    AtOctet(b, at, flags, 0);
    AtOctet(b, at, flags, 1);
    AtOctet(b, at, flags, 2);
    AtOctet(b, at, flags, 3);
    AtU16(b, at + 4, f.redMax);
    AtU16(b, at + 6, f.greenMax);
    AtU16(b, at + 8, f.blueMax);
    AtOctet(b, at + 10, shifts, 0);
    AtOctet(b, at + 10, shifts, 1);
    AtOctet(b, at + 10, shifts, 2);
  }

  lemma {:induction false} EncodingsRoundTrip(b: seq<byte>, at: nat, encodings: seq<int32>)
    requires At(b, at, EncodingsWire(encodings))
    ensures ParseEncodings(b, at, |encodings|) == Ok(encodings, at + |EncodingsWire(encodings)|)
    decreases |encodings|
  {
    hide At, Read32, U32;
    if encodings == [] {
    } else {
      var e := encodings[0];
      AtSplit(b, at, I32(e), EncodingsWire(encodings[1..]));
      AtI32(b, at, e);
      EncodingsRoundTrip(b, at + 4, encodings[1..]);
      ConsEquals(e, encodings[1..], encodings);
    }
  }

  lemma RequestRoundTrip(b: seq<byte>, at: nat, c: ClientMessage)
    requires c.UpdateRequest? && At(b, at, ClientWire(c))
    ensures |ClientWire(c)| == 10 && ParseClient(b, at) == Ok(c, at + 10)
  {
    hide At, Read16;
    var head := [3, c.incremental];
    AtSplit(b, at, head + U16(c.x) + U16(c.y) + U16(c.width), U16(c.height));
    AtSplit(b, at, head + U16(c.x) + U16(c.y), U16(c.width));
    AtSplit(b, at, head + U16(c.x), U16(c.y));
    AtSplit(b, at, head, U16(c.x));
    AtOctet(b, at, head, 0);
    AtOctet(b, at, head, 1);
    AtU16(b, at + 2, c.x);
    AtU16(b, at + 4, c.y);
    AtU16(b, at + 6, c.width);
    AtU16(b, at + 8, c.height);
  }

  lemma ExtensionRoundTrip(b: seq<byte>, at: nat, kind: byte, payload: seq<byte>)
    requires |payload| < 0x1_0000 && At(b, at, ClientWire(ClientExtension(kind, payload)))
    ensures ParseClient(b, at) == Ok(ClientExtension(kind, payload), at + |ClientWire(ClientExtension(kind, payload))|)
  {
    var head := [128, kind];
    AtSplit(b, at, head + U16(|payload|), payload);
    AtSplit(b, at, head, U16(|payload|));
    AtOctet(b, at, head, 0);
    AtOctet(b, at, head, 1);
    AtU16(b, at + 2, |payload|);
  }

  lemma SetEncodingsRoundTrip(b: seq<byte>, at: nat, encodings: seq<int32>)
    requires |encodings| < 0x1_0000 && At(b, at, ClientWire(SetEncodings(encodings)))
    ensures ParseClient(b, at) == Ok(SetEncodings(encodings), at + |ClientWire(SetEncodings(encodings))|)
  {
    var head := [2, 0];
    AtSplit(b, at, head + U16(|encodings|), EncodingsWire(encodings));
    AtSplit(b, at, head, U16(|encodings|));
    AtOctet(b, at, head, 0);
    AtU16(b, at + 2, |encodings|);
    EncodingsRoundTrip(b, at + 4, encodings);
  }

  lemma ClientRoundTrip(b: seq<byte>, at: nat, c: ClientMessage)
    requires ClientFits(c) && At(b, at, ClientWire(c))
    ensures ParseClient(b, at) == Ok(c, at + |ClientWire(c)|)
  {
    match c {
      case SetPixelFormat(format) =>
        AtSplit(b, at, [0, 0, 0, 0], FormatWire(format));
        AtOctet(b, at, [0, 0, 0, 0], 0);
        FormatRoundTrip(b, at + 4, format);
      case SetEncodings(encodings) => SetEncodingsRoundTrip(b, at, encodings);
      case UpdateRequest(_, _, _, _, _) => RequestRoundTrip(b, at, c);
      case ClientExtension(kind, payload) => ExtensionRoundTrip(b, at, kind, payload);
    }
  }

  /** A server that decodes what the client wrote gets back the messages the client meant. */
  lemma {:induction false} ClientsRoundTrip(b: seq<byte>, at: nat, cs: seq<ClientMessage>)
    requires ClientsFit(cs) && At(b, at, ClientsWire(cs)) && at + |ClientsWire(cs)| == |b|
    ensures ParseClients(b, at) == Ok(cs, |b|)
    decreases |cs|
  {
    hide At, ClientWire, ParseClient;
    if cs == [] {
    } else {
      AtSplit(b, at, ClientWire(cs[0]), ClientsWire(cs[1..]));
      ClientRoundTrip(b, at, cs[0]);
      ClientsRoundTrip(b, at + |ClientWire(cs[0])|, cs[1..]);
      ConsEquals(cs[0], cs[1..], cs);
    }
  }

  // ----- what each server message provokes -----

  /** The rectangles that make an update worth answering. */
  predicate Refreshes(r: Rect) {
    !r.OtherEncoding?
  }

  predicate Answered(m: ServerMessage) {
    m.FramebufferUpdate? && exists r <- m.rects :: Refreshes(r)
  }

  predicate Resizes(m: ServerMessage) {
    m.FramebufferUpdate? && exists r <- m.rects :: r.DesktopSize?
  }

  /** 800 by 480, MirrorLink 1.1. */
  const DISPLAY_REPLY: seq<byte> := [1, 1, 0, 0] + U16(800) + U16(480) + [0, 0, 0, 0, 0, 0, 0, 1, 0, 0, 0, 0, 0, 1]
  const EVENT_REPLY: seq<byte> := [0, 0, 0, 0, 0, 0, 0, 0, 0, 0, 0, 0, 0, 0, 0, 0, 0, 0, 0, 0, 0, 0, 0, 0, 0, 0, 1, 1]
  const RGB565 := PixelFormat(16, 16, 1, 1, 31, 63, 31, 11, 5, 0)

  function Request(s: State, incremental: byte): ClientMessage {
    UpdateRequest(incremental, 0, 0, s.width, s.height)
  }

  function Replies(s: State, m: ServerMessage): seq<ClientMessage> {
    if Answered(m) then [Request(AfterMessage(s, m), if Resizes(m) then 0 else 1)]
    else if IsByeBye(m) then [ClientExtension(BYE_BYE, [])]
    else if TakesDisplay(s, m) then [ClientExtension(CLIENT_DISPLAY, DISPLAY_REPLY)]
    else if TakesEvent(s, m) then [ClientExtension(CLIENT_EVENT, EVENT_REPLY), SetPixelFormat(RGB565), Request(s, 0)]
    else []
  }

  function AllReplies(s: State, messages: seq<ServerMessage>): seq<ClientMessage>
    decreases |messages|
  {
    if messages == [] then [] else Replies(s, messages[0]) + AllReplies(AfterMessage(s, messages[0]), messages[1..])
  }
}
