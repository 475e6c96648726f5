/**
What CoreStack/vnc_session.c takes off the stream, as a function of the stream and of the
session state that steers the framing.  Every parser starts at an offset of the stream and
says where it ended.
*/
module RfbParse {
  import opened Bytes
  import opened RfbWire

  /** `Undefined`: C gives the code no meaning here (an `int` overflows, or a copy overruns its struct). */
  datatype Parse<+T> = Ok(value: T, end: nat) | Starved | Undefined

  /** The fields of `vnc_session` that the messages change. */
  datatype State = State(
    status: nat,
    width: uint16,
    height: uint16,
    displayInfo: seq<byte>,
    eventInfo: seq<byte>)

  const DISPLAY_INFO_SIZE := 12
  const EVENT_INFO_SIZE := 28

  predicate StateOk(s: State) {
    s.status <= 2 && |s.displayInfo| == DISPLAY_INFO_SIZE && |s.eventInfo| == EVENT_INFO_SIZE
  }

  predicate InsideDesktop(s: State, a: Area) {
    a.x + a.width <= s.width && a.y + a.height <= s.height
  }

  /** `n` rows, each a 16-bit count of runs and three octets for every run. */
  function ParseRows(b: seq<byte>, at: nat, n: nat): (r: Parse<seq<seq<byte>>>)
    requires at <= |b|
    ensures r.Ok? ==> |r.value| == n && at + 2 * n <= r.end <= |b|
    decreases n
  {
    if n == 0 then Ok([], at)
    else if |b| < at + 2 then Starved
    else
      var next := at + 2 + 3 * Read16(b, at);
      if |b| < next then Starved
      else
        match ParseRows(b, next, n - 1)
        case Ok(rows, end) => Ok([Slice(b, at + 2, next)] + rows, end)
        case failure => failure
  }

  function ParseArea(b: seq<byte>, at: nat): Area
    requires at + 8 <= |b|
  {
    Area(Read16(b, at), Read16(b, at + 2),
         Read16(b, at + 4), Read16(b, at + 6))
  }

  function ParseEncoding(b: seq<byte>, at: nat): int32
    requires at + 4 <= |b|
  {
    Signed(Read32(b, at))
  }

  function ParsePayload(s: State, a: Area, encoding: int32, b: seq<byte>, at: nat): (r: Parse<Rect>)
    requires at <= |b|
    ensures r.Ok? ==> at <= r.end <= |b|
  {
    if encoding == RAW then
      if a.width == 0 || a.height == 0 || !InsideDesktop(s, a) then Ok(Raw(a, []), at)
      else if 0x8000_0000 <= RawSize(a) then Undefined
      else if |b| < at + RawSize(a) then Starved
      else Ok(Raw(a, Slice(b, at, at + RawSize(a))), at + RawSize(a))
    else if encoding == CONTEXT_INFORMATION then
      if |b| < at + 20 then Starved else Ok(ContextInformation(a, Slice(b, at, at + 20)), at + 20)
    else if encoding == DESKTOP_SIZE then
      Ok(DesktopSize(a), at)
    else if encoding == RUN_LENGTH then
      match ParseRows(b, at, s.height)
      case Ok(rows, end) => Ok(RunLength(a, rows), end)
      case Starved => Starved
      case Undefined => Undefined
    else
      Ok(OtherEncoding(a, encoding, []), at)
  }

  function ParseRect(s: State, b: seq<byte>, at: nat): (r: Parse<Rect>)
    requires at <= |b|
    ensures r.Ok? ==> at + 12 <= r.end <= |b|
  {
    if |b| < at + 12 then Starved
    else ParsePayload(s, ParseArea(b, at), ParseEncoding(b, at + 8), b, at + 12)
  }

  /** A DesktopSize rectangle resizes the desktop at once, for the rectangles that follow it. */
  function AfterRect(s: State, r: Rect): State {
    if r.DesktopSize? then s.(width := r.area.width, height := r.area.height) else s
  }

  function AfterRects(s: State, rects: seq<Rect>): State
    decreases |rects|
  {
    if rects == [] then s else AfterRects(AfterRect(s, rects[0]), rects[1..])
  }

  function ParseRects(s: State, b: seq<byte>, at: nat, n: nat): (r: Parse<seq<Rect>>)
    requires at <= |b|
    ensures r.Ok? ==> |r.value| == n && at <= r.end <= |b|
    decreases n
  {
    if n == 0 then Ok([], at)
    else
      match ParseRect(s, b, at)
      case Ok(r, next) => (
        match ParseRects(AfterRect(s, r), b, next, n - 1)
        case Ok(rects, end) => Ok([r] + rects, end)
        case failure => failure)
      case Starved => Starved
      case Undefined => Undefined
  }

  /** The extension payload is about to be copied over a struct that is too small for it. */
  predicate Overruns(s: State, kind: byte, length: nat) {
    || (kind == DISPLAY_CONFIGURATION && s.status == 0 && DISPLAY_INFO_SIZE < length)
    || (kind == EVENT_CONFIGURATION && s.status == 1 && EVENT_INFO_SIZE < length)
  }

  function ParseUpdate(s: State, b: seq<byte>, at: nat): (r: Parse<ServerMessage>)
    requires at <= |b|
    ensures r.Ok? ==> at <= r.end <= |b|
  {
    if |b| < at + 3 then Starved
    else
      match ParseRects(s, b, at + 3, Read16(b, at + 1))
      case Ok(rects, end) => Ok(FramebufferUpdate(b[at], rects), end)
      case Starved => Starved
      case Undefined => Undefined
  }

  function ParseColourMap(b: seq<byte>, at: nat): (r: Parse<ServerMessage>)
    requires at <= |b|
    ensures r.Ok? ==> at <= r.end <= |b|
  {
    if |b| < at + 6 then Starved
    // the colours would be read into an allocation of one octet each
    else if 0 < Read16(b, at + 4) then Undefined
    else Ok(SetColourMapEntries(Slice(b, at, at + 6), []), at + 6)
  }

  function ParseCutText(b: seq<byte>, at: nat): (r: Parse<ServerMessage>)
    requires at <= |b|
    ensures r.Ok? ==> at <= r.end <= |b|
  {
    if |b| < at + 7 then Starved
    else
      var end := at + 7 + Read32(b, at + 3);
      if |b| < end then Starved else Ok(ServerCutText(Slice(b, at, at + 3), Slice(b, at + 7, end)), end)
  }

  function ParseExtension(s: State, b: seq<byte>, at: nat): (r: Parse<ServerMessage>)
    requires at <= |b|
    ensures r.Ok? ==> at <= r.end <= |b|
  {
    if |b| < at + 3 then Starved
    else
      var end := at + 3 + Read16(b, at + 1);
      if |b| < end then Starved
      else if Overruns(s, b[at], end - at - 3) then Undefined
      else Ok(Extension(b[at], Slice(b, at + 3, end)), end)
  }

  function ParseMessage(s: State, b: seq<byte>, at: nat): (r: Parse<ServerMessage>)
    requires at <= |b|
    ensures r.Ok? ==> at < r.end <= |b|
  {
    if at == |b| then Starved
    else
      match b[at]
      case 0 => ParseUpdate(s, b, at + 1)
      case 1 => ParseColourMap(b, at + 1)
      case 2 => Ok(Bell, at + 1)
      case 3 => ParseCutText(b, at + 1)
      case 128 => ParseExtension(s, b, at + 1)
      case other => Ok(OtherMessage(other, []), at + 1)
  }

  /** The first Server Display Configuration, which moves the status from 0 to 1. */
  predicate TakesDisplay(s: State, m: ServerMessage) {
    m.Extension? && m.kind == DISPLAY_CONFIGURATION && s.status == 0 && |m.payload| <= |s.displayInfo|
  }

  /** The first Server Event Configuration after it, which moves the status from 1 to 2. */
  predicate TakesEvent(s: State, m: ServerMessage) {
    m.Extension? && m.kind == EVENT_CONFIGURATION && s.status == 1 && |m.payload| <= |s.eventInfo|
  }

  function AfterMessage(s: State, m: ServerMessage): State {
    if m.FramebufferUpdate? then AfterRects(s, m.rects)
    else if TakesDisplay(s, m) then
      s.(status := 1, displayInfo := Overwrite(s.displayInfo, 0, m.payload))
    else if TakesEvent(s, m) then
      s.(status := 2, eventInfo := Overwrite(s.eventInfo, 0, m.payload))
    else s
  }

  function AfterMessages(s: State, messages: seq<ServerMessage>): State
    decreases |messages|
  {
    if messages == [] then s else AfterMessages(AfterMessage(s, messages[0]), messages[1..])
  }

  /** The message loop: messages up to and including the first ByeBye. */
  function ParseSession(s: State, b: seq<byte>, at: nat): (r: Parse<seq<ServerMessage>>)
    requires at <= |b|
    ensures r.Ok? ==> at <= r.end <= |b|
    decreases |b| - at
  {
    match ParseMessage(s, b, at)
    case Ok(m, next) => (
      if IsByeBye(m) then Ok([m], next)
      else
        match ParseSession(AfterMessage(s, m), b, next)
        case Ok(messages, end) => Ok([m] + messages, end)
        case failure => failure)
    case Starved => Starved
    case Undefined => Undefined
  }

  /** The first `k` turns of the message loop: `k` messages, or fewer if a ByeBye ends it before. */
  function ParseFirst(s: State, b: seq<byte>, at: nat, k: nat): (r: Parse<seq<ServerMessage>>)
    requires at <= |b|
    ensures r.Ok? ==> |r.value| <= k && at <= r.end <= |b|
    decreases k
  {
    if k == 0 then Ok([], at)
    else
      match ParseMessage(s, b, at)
      case Ok(m, next) => (
        if IsByeBye(m) then Ok([m], next)
        else
          match ParseFirst(AfterMessage(s, m), b, next, k - 1)
          case Ok(messages, end) => Ok([m] + messages, end)
          case failure => failure)
      case Starved => Starved
      case Undefined => Undefined
  }

  /** The last message is a ByeBye. */
  predicate Ended(messages: seq<ServerMessage>) {
    messages != [] && IsByeBye(messages[|messages| - 1])
  }

  /** The loop has come to its end within `k` turns iff the whole session has no more messages, and has then taken in all of it. */
  lemma {:induction false} SessionIsFirst(s: State, b: seq<byte>, at: nat, k: nat)
    requires at <= |b|
    ensures var f, p := ParseFirst(s, b, at, k), ParseSession(s, b, at);
            && (f.Ok? && Ended(f.value) <==> p.Ok? && |p.value| <= k)
            && (f.Ok? && Ended(f.value) ==> f == p)
            && (p.Ok? ==> p.value != [])
    decreases |b| - at
  {
    hide ParseMessage, AfterMessage, IsByeBye;
    var m := ParseMessage(s, b, at);
    if m.Ok? {
      if IsByeBye(m.value) {
        assert [m.value][0] == m.value;
      } else {
        SessionIsFirst(AfterMessage(s, m.value), b, m.end, if k == 0 then 0 else k - 1);
        if 0 < k {
          EndedCons(m.value, ParseFirst(AfterMessage(s, m.value), b, m.end, k - 1));
        }
      }
    }
  }

  lemma EndedCons(m: ServerMessage, rest: Parse<seq<ServerMessage>>)
    requires !IsByeBye(m)
    ensures rest.Ok? ==> (Ended([m] + rest.value) <==> Ended(rest.value))
  {
    hide IsByeBye;
    if rest.Ok? && rest.value != [] {
      assert ([m] + rest.value)[|rest.value|] == rest.value[|rest.value| - 1];
    }
  }
}
