/**
Framing: the client stays aligned with the server's encoding exactly when the server keeps
to what the client can frame, and whatever the client recorded re-encodes to the octets it
consumed.
*/
module RfbFraming {
  import opened Bytes
  import opened RfbWire
  import opened RfbParse

  // ----- what the client can frame -----

  predicate RectConforms(s: State, r: Rect) {
    match r
    case Raw(a, _) => a.width == 0 || a.height == 0 || (InsideDesktop(s, a) && RawSize(a) < 0x8000_0000)
    case RunLength(_, rows) => |rows| == s.height
    case OtherEncoding(_, _, payload) => payload == []
    case _ => true
  }

  predicate RectsConform(s: State, rects: seq<Rect>)
    decreases |rects|
  {
    rects == [] || (RectConforms(s, rects[0]) && RectsConform(AfterRect(s, rects[0]), rects[1..]))
  }

  predicate MessageConforms(s: State, m: ServerMessage) {
    match m
    case FramebufferUpdate(_, rects) => RectsConform(s, rects)
    case SetColourMapEntries(_, _) => false
    case Extension(kind, payload) => !Overruns(s, kind, |payload|)
    case OtherMessage(_, payload) => payload == []
    case _ => true
  }

  predicate MessagesConform(s: State, messages: seq<ServerMessage>)
    decreases |messages|
  {
    messages == []
    || (MessageConforms(s, messages[0]) && MessagesConform(AfterMessage(s, messages[0]), messages[1..]))
  }

  /** What a server may have sent by some moment: legal messages, none after a ByeBye. */
  predicate Orderly(messages: seq<ServerMessage>) {
    messages == []
    || (MessageLegal(messages[0]) && Orderly(messages[1..]) && (IsByeBye(messages[0]) ==> |messages| == 1))
  }

  /** A whole conversation: legal messages, of which exactly the last is a ByeBye. */
  predicate Conversation(messages: seq<ServerMessage>) {
    Orderly(messages) && Ended(messages)
  }

  // ----- from messages to octets and back -----

  lemma RowsWireAt(b: seq<byte>, at: nat, rows: seq<seq<byte>>)
    requires rows != [] && At(b, at, RowsWire(rows)) && RowsFit(rows)
    ensures at + 2 + |rows[0]| <= |b| && 3 * Read16(b, at) == |rows[0]|
    ensures Slice(b, at + 2, at + 2 + |rows[0]|) == rows[0]
    ensures At(b, at + 2 + |rows[0]|, RowsWire(rows[1..]))
    ensures |RowsWire(rows)| == 2 + |rows[0]| + |RowsWire(rows[1..])|
  {
    hide Read16, U16;
    AtSplit(b, at, RowWire(rows[0]), RowsWire(rows[1..]));
    AtSplit(b, at, U16(|rows[0]| / 3), rows[0]);
    AtU16(b, at, |rows[0]| / 3);
  }

  lemma {:induction false} RowsRoundTrip(b: seq<byte>, at: nat, rows: seq<seq<byte>>)
    requires RowsFit(rows) && At(b, at, RowsWire(rows))
    ensures ParseRows(b, at, |rows|) == Ok(rows, at + |RowsWire(rows)|)
    decreases |rows|
  {
    hide At, Slice, Read16, Read32, U16, U32;
    if rows == [] {
    } else {
      RowsWireAt(b, at, rows);
      RowsRoundTrip(b, at + 2 + |rows[0]|, rows[1..]);
      ConsEquals(rows[0], rows[1..], rows);
    }
  }

  /** Reading another number of rows than were sent never ends where the rows end. */
  lemma {:induction false} RowsMisaligned(b: seq<byte>, at: nat, n: nat, rows: seq<seq<byte>>)
    requires RowsFit(rows) && At(b, at, RowsWire(rows)) && n != |rows|
    ensures var p := ParseRows(b, at, n); p.Ok? ==> p.end != at + |RowsWire(rows)|
    decreases n
  {
    hide At, Slice, Read16, Read32, U16, U32;
    if rows == [] {
    } else {
      RowsWireAt(b, at, rows);
      if 0 < n {
        RowsMisaligned(b, at + 2 + |rows[0]|, n - 1, rows[1..]);
      }
    }
  }

  lemma HeadRoundTrip(b: seq<byte>, at: nat, r: Rect)
    requires At(b, at, RectWire(r))
    ensures |RectWire(r)| == 12 + |PayloadWire(r)|
    ensures ParseArea(b, at) == r.area && ParseEncoding(b, at + 8) == Encoding(r)
    ensures At(b, at + 12, PayloadWire(r))
  {
    var a := r.area;
    AtSplit(b, at, AreaWire(a) + I32(Encoding(r)), PayloadWire(r));
    AtSplit(b, at, AreaWire(a), I32(Encoding(r)));
    AtSplit(b, at, U16(a.x) + U16(a.y) + U16(a.width), U16(a.height));
    AtSplit(b, at, U16(a.x) + U16(a.y), U16(a.width));
    AtSplit(b, at, U16(a.x), U16(a.y));
    AtU16(b, at, a.x);
    AtU16(b, at + 2, a.y);
    AtU16(b, at + 4, a.width);
    AtU16(b, at + 6, a.height);
    AtI32(b, at + 8, Encoding(r));
  }

  /**
  One rectangle: the client recovers it iff it conforms, and also consumes exactly its
  octets iff it conforms.
  */
  lemma RectExact(s: State, b: seq<byte>, at: nat, r: Rect)
    requires RectLegal(r) && At(b, at, RectWire(r))
    ensures var p := ParseRect(s, b, at);
            && (p.Ok? && p.value == r <==> RectConforms(s, r))
            && (p.Ok? && p.end == at + |RectWire(r)| <==> RectConforms(s, r))
  {
    HeadRoundTrip(b, at, r);
    match r {
      case Raw(a, _) =>
        RawSizePositive(a);
      case RunLength(_, rows) =>
        RowsRoundTrip(b, at + 12, rows);
        if |rows| != s.height {
          RowsMisaligned(b, at + 12, s.height, rows);
        }
      case _ =>
    }
  }

  lemma {:induction false} RectsExact(s: State, b: seq<byte>, at: nat, rects: seq<Rect>)
    requires RectsLegal(rects) && At(b, at, RectsWire(rects))
    ensures var p := ParseRects(s, b, at, |rects|);
            && (p.Ok? && p.value == rects <==> RectsConform(s, rects))
            && (RectsConform(s, rects) ==> p == Ok(rects, at + |RectsWire(rects)|))
    decreases |rects|
  {
    hide At, RectWire, RectConforms, AfterRect, ParseRect;
    if rects != [] {
      var r, next := rects[0], at + |RectWire(rects[0])|;
      AtSplit(b, at, RectWire(r), RectsWire(rects[1..]));
      RectExact(s, b, at, r);
      var p := ParseRect(s, b, at);
      if RectConforms(s, r) {
        RectsExact(AfterRect(s, r), b, next, rects[1..]);
        var q := ParseRects(AfterRect(s, r), b, next, |rects| - 1);
        if q.Ok? {
          ConsEquals(r, q.value, rects);
        }
      } else if p.Ok? {
        var q := ParseRects(AfterRect(s, p.value), b, p.end, |rects| - 1);
        if q.Ok? {
          ConsEquals(p.value, q.value, rects);
        }
      }
    }
  }

  lemma UpdateExact(s: State, b: seq<byte>, at: nat, padding: byte, rects: seq<Rect>)
    requires MessageLegal(FramebufferUpdate(padding, rects))
    requires At(b, at, MessageWire(FramebufferUpdate(padding, rects)))
    ensures var m := FramebufferUpdate(padding, rects);
            var p := ParseMessage(s, b, at);
            && (p.Ok? && p.value == m <==> RectsConform(s, rects))
            && (RectsConform(s, rects) ==> p == Ok(m, at + |MessageWire(m)|))
  {
    AtSplit(b, at, [0, padding] + U16(|rects|), RectsWire(rects));
    AtSplit(b, at, [0, padding], U16(|rects|));
    AtU16(b, at + 2, |rects|);
    assert Slice(b, at, at + 2)[0] == b[at] && Slice(b, at, at + 2)[1] == b[at + 1];
    RectsExact(s, b, at + 4, rects);
  }

  lemma CutTextExact(s: State, b: seq<byte>, at: nat, gap: seq<byte>, text: seq<byte>)
    requires MessageLegal(ServerCutText(gap, text))
    requires At(b, at, MessageWire(ServerCutText(gap, text)))
    ensures var m := ServerCutText(gap, text); ParseMessage(s, b, at) == Ok(m, at + |MessageWire(m)|)
  {
    hide U32, Read32;
    AtSplit(b, at, [3] + gap + U32(|text|), text);
    AtSplit(b, at, [3] + gap, U32(|text|));
    AtSplit(b, at, [3], gap);
    AtU32(b, at + 4, |text|);
    assert Slice(b, at, at + 1)[0] == b[at];
  }

  lemma ExtensionExact(s: State, b: seq<byte>, at: nat, kind: byte, payload: seq<byte>)
    requires MessageLegal(Extension(kind, payload))
    requires At(b, at, MessageWire(Extension(kind, payload)))
    ensures var m := Extension(kind, payload);
            ParseMessage(s, b, at) == if Overruns(s, kind, |payload|) then Undefined else Ok(m, at + |MessageWire(m)|)
  {
    AtSplit(b, at, [128, kind] + U16(|payload|), payload);
    AtSplit(b, at, [128, kind], U16(|payload|));
    AtU16(b, at + 2, |payload|);
    assert Slice(b, at, at + 2)[0] == b[at] && Slice(b, at, at + 2)[1] == b[at + 1];
  }

  /** SetColourMapEntries can never be framed: its header is one octet shorter than the client reads. */
  lemma ColourMapNeverAligned(s: State, b: seq<byte>, at: nat, m: ServerMessage)
    requires MessageLegal(m) && m.SetColourMapEntries? && At(b, at, MessageWire(m))
    ensures var p := ParseMessage(s, b, at); p.Ok? ==> p.value != m && p.end != at + |MessageWire(m)|
  {
    assert Slice(b, at, at + |MessageWire(m)|)[0] == b[at];
  }

  /** One message: the client recovers it iff it conforms, and then consumes exactly its octets. */
  lemma MessageExact(s: State, b: seq<byte>, at: nat, m: ServerMessage)
    requires MessageLegal(m) && At(b, at, MessageWire(m))
    ensures var p := ParseMessage(s, b, at);
            && (p.Ok? && p.value == m <==> MessageConforms(s, m))
            && (MessageConforms(s, m) ==> p == Ok(m, at + |MessageWire(m)|))
  {
    assert Slice(b, at, at + |MessageWire(m)|)[0] == b[at];
    match m {
      case FramebufferUpdate(padding, rects) => UpdateExact(s, b, at, padding, rects);
      case SetColourMapEntries(_, _) => ColourMapNeverAligned(s, b, at, m);
      case ServerCutText(gap, text) => CutTextExact(s, b, at, gap, text);
      case Extension(kind, payload) => ExtensionExact(s, b, at, kind, payload);
      case _ =>
    }
  }

  /**
  The round trip at any moment of a run: of the messages sent so far the loop records exactly
  these iff every one conforms in the state it arrives in.
  */
  lemma {:induction false} RunRoundTrip(s: State, b: seq<byte>, at: nat, messages: seq<ServerMessage>)
    requires Orderly(messages) && At(b, at, MessagesWire(messages))
    ensures var p := ParseFirst(s, b, at, |messages|);
            && (p.Ok? && p.value == messages <==> MessagesConform(s, messages))
            && (MessagesConform(s, messages) ==> p == Ok(messages, at + |MessagesWire(messages)|))
    decreases |messages|
  {
    hide At, MessageWire, MessageConforms, MessageLegal, AfterMessage, ParseMessage, IsByeBye;
    if messages != [] {
      var m, next := messages[0], at + |MessageWire(messages[0])|;
      AtSplit(b, at, MessageWire(m), MessagesWire(messages[1..]));
      MessageExact(s, b, at, m);
      var p := ParseMessage(s, b, at);
      if MessageConforms(s, m) {
        ConsEquals(m, [], messages);
        if !IsByeBye(m) {
          RunRoundTrip(AfterMessage(s, m), b, next, messages[1..]);
          var q := ParseFirst(AfterMessage(s, m), b, next, |messages| - 1);
          if q.Ok? {
            ConsEquals(m, q.value, messages);
          }
        }
      } else if p.Ok? && !IsByeBye(p.value) {
        var q := ParseFirst(AfterMessage(s, p.value), b, p.end, |messages| - 1);
        if q.Ok? {
          ConsEquals(p.value, q.value, messages);
        }
      }
    }
  }

  /**
  Framing round trip.  The message loop on the encoding of a conversation records exactly
  that conversation iff every message conforms in the state it arrives in; it then stops at
  the ByeBye, having consumed every octet and no more.
  */
  lemma FramingRoundTrip(s: State, b: seq<byte>, at: nat, messages: seq<ServerMessage>)
    requires Conversation(messages) && At(b, at, MessagesWire(messages))
    ensures var p := ParseSession(s, b, at);
            && (p.Ok? && p.value == messages <==> MessagesConform(s, messages))
            && (MessagesConform(s, messages) ==> p == Ok(messages, at + |MessagesWire(messages)|))
  {
    hide At, ParseSession, ParseFirst, MessagesWire, MessagesConform, IsByeBye;
    RunRoundTrip(s, b, at, messages);
    SessionIsFirst(s, b, at, |messages|);
  }

  // ----- from octets to messages and back -----

  /** `wire` is what `b` holds from `at` up to `end`. */
  predicate Spans(b: seq<byte>, at: nat, end: nat, wire: seq<byte>): (r: bool)
    ensures r ==> end == at + |wire| <= |b|
    ensures wire == [] && at == end <= |b| ==> r
  {
    At(b, at, wire) && end == at + |wire|
  }

  lemma SpansFrom(b: seq<byte>, at: nat, end: nat, wire: seq<byte>)
    requires At(b, at, wire) && end == at + |wire|
    ensures Spans(b, at, end, wire)
  {
  }

  lemma SpansJoin(b: seq<byte>, at: nat, middle: nat, end: nat, x: seq<byte>, y: seq<byte>)
    requires Spans(b, at, middle, x) && Spans(b, middle, end, y)
    ensures Spans(b, at, end, x + y)
  {
    AtSplit(b, at, x, y);
  }

  lemma {:induction false} RowsSound(b: seq<byte>, at: nat, n: nat)
    requires at <= |b|
    ensures var p := ParseRows(b, at, n); p.Ok? ==> RowsFit(p.value) && Spans(b, at, p.end, RowsWire(p.value))
    decreases n
  {
    hide At, Slice, Read16, Read32, U16, U32, Spans;
    if 0 < n && at + 2 <= |b| {
      var end := at + 2 + 3 * Read16(b, at);
      if end <= |b| {
        var row, rows := Slice(b, at + 2, end), ParseRows(b, end, n - 1);
        if rows.Ok? {
          RowsSound(b, end, n - 1);
          AtRead16(b, at);
          AtSlice(b, at + 2, end);
          SpansFrom(b, at, at + 2, U16(|row| / 3));
          SpansFrom(b, at + 2, end, row);
          SpansJoin(b, at, at + 2, end, U16(|row| / 3), row);
          SpansJoin(b, at, end, rows.end, RowWire(row), RowsWire(rows.value));
          assert ([row] + rows.value)[1..] == rows.value;
        }
      }
    }
  }

  lemma HeadSound(b: seq<byte>, at: nat)
    requires at + 12 <= |b|
    ensures Spans(b, at, at + 12, AreaWire(ParseArea(b, at)) + I32(ParseEncoding(b, at + 8)))
  {
    hide At, Read16, Read32, U16, U32;
    var a := ParseArea(b, at);
    AtRead16(b, at);
    AtRead16(b, at + 2);
    AtRead16(b, at + 4);
    AtRead16(b, at + 6);
    AtRead32(b, at + 8);
    AtSplit(b, at, U16(a.x), U16(a.y));
    AtSplit(b, at, U16(a.x) + U16(a.y), U16(a.width));
    AtSplit(b, at, U16(a.x) + U16(a.y) + U16(a.width), U16(a.height));
    AtSplit(b, at, AreaWire(a), I32(ParseEncoding(b, at + 8)));
  }

  lemma PayloadSound(s: State, a: Area, encoding: int32, b: seq<byte>, at: nat)
    requires at <= |b|
    ensures var p := ParsePayload(s, a, encoding, b, at);
            p.Ok? ==> && RectFits(p.value) && p.value.area == a && Encoding(p.value) == encoding
                      && Spans(b, at, p.end, PayloadWire(p.value))
  {
    if encoding == RUN_LENGTH {
      RowsSound(b, at, s.height);
    }
  }

  lemma RectSound(s: State, b: seq<byte>, at: nat)
    requires at <= |b|
    ensures var p := ParseRect(s, b, at); p.Ok? ==> RectFits(p.value) && Spans(b, at, p.end, RectWire(p.value))
  {
    hide At, Slice, Read16, Read32, U16, U32, Spans;
    if at + 12 <= |b| {
      var a, encoding := ParseArea(b, at), ParseEncoding(b, at + 8);
      var p := ParsePayload(s, a, encoding, b, at + 12);
      if p.Ok? {
        HeadSound(b, at);
        PayloadSound(s, a, encoding, b, at + 12);
        SpansJoin(b, at, at + 12, p.end, AreaWire(a) + I32(encoding), PayloadWire(p.value));
      }
    }
  }

  lemma {:induction false} RectsSound(s: State, b: seq<byte>, at: nat, n: nat)
    requires at <= |b|
    ensures var p := ParseRects(s, b, at, n); p.Ok? ==> RectsFit(p.value) && Spans(b, at, p.end, RectsWire(p.value))
    decreases n
  {
    hide At, Slice, Read16, Read32, U16, U32, Spans;
    if 0 < n {
      var r := ParseRect(s, b, at);
      if r.Ok? {
        var rects := ParseRects(AfterRect(s, r.value), b, r.end, n - 1);
        if rects.Ok? {
          RectSound(s, b, at);
          RectsSound(AfterRect(s, r.value), b, r.end, n - 1);
          SpansJoin(b, at, r.end, rects.end, RectWire(r.value), RectsWire(rects.value));
          assert ([r.value] + rects.value)[1..] == rects.value;
        }
      }
    }
  }

  lemma UpdateSound(s: State, b: seq<byte>, at: nat)
    requires at < |b| && b[at] == 0
    ensures var p := ParseUpdate(s, b, at + 1);
            p.Ok? ==> MessageFits(p.value) && Spans(b, at, p.end, MessageWire(p.value))
  {
    hide At, Slice, Read16, Read32, U16, U32;
    var p := ParseUpdate(s, b, at + 1);
    if p.Ok? {
      var rects := p.value.rects;
      RectsSound(s, b, at + 4, Read16(b, at + 2));
      AtRead16(b, at + 2);
      AtTwo(b, at);
      SpansJoin(b, at, at + 2, at + 4, [0, b[at + 1]], U16(|rects|));
      SpansJoin(b, at, at + 4, p.end, [0, b[at + 1]] + U16(|rects|), RectsWire(rects));
    }
  }

  lemma CutTextSound(b: seq<byte>, at: nat)
    requires at < |b| && b[at] == 3
    ensures var p := ParseCutText(b, at + 1);
            p.Ok? ==> MessageFits(p.value) && Spans(b, at, p.end, MessageWire(p.value))
  {
    hide At, Slice, Read16, Read32, U16, U32;
    var p := ParseCutText(b, at + 1);
    if p.Ok? {
      var gap, text := p.value.gap, p.value.text;
      AtRead32(b, at + 4);
      AtOne(b, at);
      AtSlice(b, at + 1, at + 4);
      AtSlice(b, at + 8, p.end);
      SpansJoin(b, at, at + 1, at + 4, [3], gap);
      SpansJoin(b, at, at + 4, at + 8, [3] + gap, U32(|text|));
      SpansJoin(b, at, at + 8, p.end, [3] + gap + U32(|text|), text);
    }
  }

  lemma ExtensionSound(s: State, b: seq<byte>, at: nat)
    requires at < |b| && b[at] == 128
    ensures var p := ParseExtension(s, b, at + 1);
            p.Ok? ==> MessageFits(p.value) && Spans(b, at, p.end, MessageWire(p.value))
  {
    hide At, Slice, Read16, Read32, U16, U32;
    var p := ParseExtension(s, b, at + 1);
    if p.Ok? {
      var payload := p.value.payload;
      AtRead16(b, at + 2);
      AtTwo(b, at);
      AtSlice(b, at + 4, p.end);
      SpansJoin(b, at, at + 2, at + 4, [128, b[at + 1]], U16(|payload|));
      SpansJoin(b, at, at + 4, p.end, [128, b[at + 1]] + U16(|payload|), payload);
    }
  }

  lemma MessageSound(s: State, b: seq<byte>, at: nat)
    requires at <= |b|
    ensures var p := ParseMessage(s, b, at); p.Ok? ==> MessageFits(p.value) && Spans(b, at, p.end, MessageWire(p.value))
  {
    if at < |b| {
      assert Slice(b, at, at + 1) == [b[at]];
      match b[at] {
        case 0 => UpdateSound(s, b, at);
        case 1 =>
          if at + 7 <= |b| {
            SpansJoin(b, at, at + 1, at + 7, [1], Slice(b, at + 1, at + 7));
          }
        case 3 => CutTextSound(b, at);
        case 128 => ExtensionSound(s, b, at);
        case _ =>
      }
    }
  }

  /** No message but the last is a ByeBye. */
  predicate NothingAfterByeBye(messages: seq<ServerMessage>) {
    forall i | 0 <= i < |messages| - 1 :: !IsByeBye(messages[i])
  }

  /**
  Nothing is skipped and nothing is read twice: on every stream, at every moment of the loop,
  what it has recorded re-encodes to the octets it has consumed, and it has taken as many
  messages as turns unless a ByeBye, which is then the last one, ended it before.
  */
  lemma {:induction false} RunSound(s: State, b: seq<byte>, at: nat, k: nat)
    requires at <= |b|
    ensures var p := ParseFirst(s, b, at, k);
            p.Ok? ==> && MessagesFit(p.value) && Spans(b, at, p.end, MessagesWire(p.value))
                      && NothingAfterByeBye(p.value) && (Ended(p.value) || |p.value| == k)
    decreases k
  {
    hide At, Slice, Read16, Read32, U16, U32, Spans, MessageFits, IsByeBye, ParseMessage, AfterMessage, MessageWire;
    if 0 < k {
      MessageSound(s, b, at);
      var m := ParseMessage(s, b, at);
      if m.Ok? {
        if IsByeBye(m.value) {
          assert [m.value][1..] == [] && MessagesWire([m.value]) == MessageWire(m.value) + [];
          assert MessageWire(m.value) + [] == MessageWire(m.value);
        } else {
          var p := ParseFirst(AfterMessage(s, m.value), b, m.end, k - 1);
          if p.Ok? {
            RunSound(AfterMessage(s, m.value), b, m.end, k - 1);
            SpansJoin(b, at, m.end, p.end, MessageWire(m.value), MessagesWire(p.value));
            ConsEquals(m.value, p.value, [m.value] + p.value);
            EndedCons(m.value, p);
          }
        }
      }
    }
  }

  /** The same of a whole session, which ends at its first ByeBye. */
  lemma SessionSound(s: State, b: seq<byte>, at: nat)
    requires at <= |b|
    ensures var p := ParseSession(s, b, at);
            p.Ok? ==> && MessagesFit(p.value) && Spans(b, at, p.end, MessagesWire(p.value))
                      && NothingAfterByeBye(p.value) && Ended(p.value)
  {
    hide ParseSession, ParseFirst, MessagesFit, Spans, MessagesWire, NothingAfterByeBye, Ended;
    var p := ParseSession(s, b, at);
    if p.Ok? {
      RunSound(s, b, at, |p.value|);
      SessionIsFirst(s, b, at, |p.value|);
    }
  }
}
