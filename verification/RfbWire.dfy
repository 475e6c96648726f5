/**
The server's side of the wire: the messages of RFC 6143 section 7.6 and of the MirrorLink
extensions, and how a server encodes them.  Written without looking at the client's parser.
*/
module RfbWire {
  import opened Bytes

  datatype Area = Area(x: uint16, y: uint16, width: uint16, height: uint16)

  datatype Rect =
    | Raw(area: Area, pixels: seq<byte>)
    | ContextInformation(area: Area, info: seq<byte>)
    | DesktopSize(area: Area)
    | RunLength(area: Area, rows: seq<seq<byte>>)
    | OtherEncoding(area: Area, encoding: int32, payload: seq<byte>)

  datatype ServerMessage =
    | FramebufferUpdate(padding: byte, rects: seq<Rect>)
    | SetColourMapEntries(head: seq<byte>, colours: seq<byte>)
    | Bell
    | ServerCutText(gap: seq<byte>, text: seq<byte>)
    | Extension(kind: byte, payload: seq<byte>)
    | OtherMessage(number: byte, payload: seq<byte>)

  const RAW: int32 := 0
  const DESKTOP_SIZE: int32 := -223
  const CONTEXT_INFORMATION: int32 := -524
  const RUN_LENGTH: int32 := -525
  const PARSED_ENCODINGS := {RAW, DESKTOP_SIZE, CONTEXT_INFORMATION, RUN_LENGTH}
  const PARSED_MESSAGES: set<byte> := {0, 1, 2, 3, 128}

  const BYE_BYE: byte := 0
  const DISPLAY_CONFIGURATION: byte := 1
  const EVENT_CONFIGURATION: byte := 3

  predicate IsByeBye(m: ServerMessage) {
    m.Extension? && m.kind == BYE_BYE
  }

  function Encoding(r: Rect): int32 {
    match r
    case Raw(_, _) => RAW
    case ContextInformation(_, _) => CONTEXT_INFORMATION
    case DesktopSize(_) => DESKTOP_SIZE
    case RunLength(_, _) => RUN_LENGTH
    case OtherEncoding(_, encoding, _) => encoding
  }

  /** Two octets a pixel, as the client's SetPixelFormat asks for. */
  function RawSize(a: Area): nat {
    2 * (a.width * a.height)
  }

  lemma RawSizePositive(a: Area)
    ensures RawSize(a) == 0 <==> a.width == 0 || a.height == 0
  {
  }

  /** A run-length row: runs of three octets, counted by a 16-bit word. */
  predicate RowFits(row: seq<byte>) {
    |row| % 3 == 0 && |row| / 3 < 0x1_0000
  }

  predicate RowsFit(rows: seq<seq<byte>>) {
    rows == [] || (RowFits(rows[0]) && RowsFit(rows[1..]))
  }

  /** The lengths of the rectangle can be written in the fields that carry them. */
  predicate RectFits(r: Rect) {
    match r
    case RunLength(_, rows) => RowsFit(rows)
    case OtherEncoding(_, encoding, _) => encoding !in PARSED_ENCODINGS
    case ContextInformation(_, info) => |info| == 20
    case _ => true
  }

  predicate RectsFit(rects: seq<Rect>) {
    rects == [] || (RectFits(rects[0]) && RectsFit(rects[1..]))
  }

  predicate MessageFits(m: ServerMessage) {
    match m
    case FramebufferUpdate(_, rects) => |rects| < 0x1_0000 && RectsFit(rects)
    case ServerCutText(gap, text) => |gap| == 3 && |text| < 0x1_0000_0000
    case Extension(_, payload) => |payload| < 0x1_0000
    case OtherMessage(number, _) => number !in PARSED_MESSAGES
    case _ => true
  }

  predicate MessagesFit(messages: seq<ServerMessage>) {
    messages == [] || (MessageFits(messages[0]) && MessagesFit(messages[1..]))
  }

  function RowWire(row: seq<byte>): seq<byte> {
    U16(|row| / 3) + row
  }

  function RowsWire(rows: seq<seq<byte>>): seq<byte> {
    if rows == [] then [] else RowWire(rows[0]) + RowsWire(rows[1..])
  }

  function AreaWire(a: Area): seq<byte> {
    U16(a.x) + U16(a.y) + U16(a.width) + U16(a.height)
  }

  function PayloadWire(r: Rect): seq<byte> {
    match r
    case Raw(_, pixels) => pixels
    case ContextInformation(_, info) => info
    case DesktopSize(_) => []
    case RunLength(_, rows) => RowsWire(rows)
    case OtherEncoding(_, _, payload) => payload
  }

  function RectWire(r: Rect): seq<byte> {
    AreaWire(r.area) + I32(Encoding(r)) + PayloadWire(r)
  }

  function RectsWire(rects: seq<Rect>): seq<byte> {
    if rects == [] then [] else RectWire(rects[0]) + RectsWire(rects[1..])
  }

  function MessageWire(m: ServerMessage): seq<byte> {
    match m
    case FramebufferUpdate(padding, rects) => [0, padding] + U16(|rects|) + RectsWire(rects)
    case SetColourMapEntries(head, colours) => [1] + head + colours
    case Bell => [2]
    case ServerCutText(gap, text) => [3] + gap + U32(|text|) + text
    case Extension(kind, payload) => [128, kind] + U16(|payload|) + payload
    case OtherMessage(number, payload) => [number] + payload
  }

  function MessagesWire(messages: seq<ServerMessage>): seq<byte> {
    if messages == [] then [] else MessageWire(messages[0]) + MessagesWire(messages[1..])
  }

  /** What the standard demands of a rectangle: at 16 bits a pixel, Raw carries two octets for each. */
  predicate RectLegal(r: Rect) {
    && RectFits(r)
    && (r.Raw? ==> |r.pixels| == RawSize(r.area))
  }

  predicate RectsLegal(rects: seq<Rect>) {
    rects == [] || (RectLegal(rects[0]) && RectsLegal(rects[1..]))
  }

  /** What the standard demands of a message; SetColourMapEntries is laid out by RFC 6143 section 7.6.2. */
  predicate MessageLegal(m: ServerMessage) {
    && MessageFits(m)
    && (m.FramebufferUpdate? ==> RectsLegal(m.rects))
    && (m.SetColourMapEntries? ==> |m.head| == 5 && |m.colours| == 6 * Word16(m.head[3], m.head[4]))
  }
}
