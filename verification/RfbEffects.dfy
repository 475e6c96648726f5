/**
What every rectangle and every message is on the wire and does to the session, octet by octet
and number by number, for a reader with RFC 6143 and the MirrorLink layouts at hand.  Nothing
is stated through the predicates that the parser and the session share.
*/
module RfbEffects {
  import opened Bytes
  import opened RfbWire
  import opened RfbParse
  import opened RfbFraming
  import opened RfbClient
  import opened RfbRuns
  import opened RfbHandshake

  // ----- octets -----

  lemma WordsAreBigEndian(w: uint16, v: uint32)
    ensures U16(w) == [w / 256, w % 256]
    ensures U32(v) == [v / 16777216, v / 65536 % 256, v / 256 % 256, v % 256]
  {
    assert v / 16777216 < 256;
  }

  lemma ReadsAreBigEndian(b: seq<byte>, at: nat)
    ensures at + 2 <= |b| ==> Read16(b, at) == 256 * b[at] as int + b[at + 1]
    ensures at + 4 <= |b| ==> Read32(b, at) == 16777216 * b[at] as int + 65536 * b[at + 1] as int + 256 * b[at + 2] as int + b[at + 3]
  {
  }

  lemma EncodingOctets()
    ensures I32(0) == [0, 0, 0, 0] && I32(-223) == [255, 255, 255, 33]
    ensures I32(-524) == [255, 255, 253, 244] && I32(-525) == [255, 255, 253, 243]
  {
  }

  lemma AreaOctets(a: Area)
    ensures AreaWire(a) == [a.x / 256, a.x % 256] + [a.y / 256, a.y % 256]
                           + [a.width / 256, a.width % 256] + [a.height / 256, a.height % 256]
  {
    hide U16, U32;
    WordsAreBigEndian(a.x, 0);
    WordsAreBigEndian(a.y, 0);
    WordsAreBigEndian(a.width, 0);
    WordsAreBigEndian(a.height, 0);
  }

  /** The layout of a rectangle: where it is, what it is, and its payload. */
  lemma RectOctets(r: Rect)
    ensures var a := r.area;
            var where := [a.x / 256, a.x % 256] + [a.y / 256, a.y % 256]
                         + [a.width / 256, a.width % 256] + [a.height / 256, a.height % 256];
            RectWire(r) ==
            match r
            case Raw(_, pixels) => where + [0, 0, 0, 0] + pixels
            case ContextInformation(_, info) => where + [255, 255, 253, 244] + info
            case DesktopSize(_) => where + [255, 255, 255, 33] + []
            case RunLength(_, rows) => where + [255, 255, 253, 243] + RowsWire(rows)
            case OtherEncoding(_, e, payload) => where + I32(e) + payload
  {
    hide I32, AreaWire;
    AreaOctets(r.area);
    EncodingOctets();
  }

  /** A run-length row: a 16-bit count of runs, and three octets for each. */
  lemma RowOctets(row: seq<byte>, rows: seq<seq<byte>>)
    requires RowFits(row)
    ensures var n := |row| / 3; RowsWire([row] + rows) == [n / 256, n % 256] + row + RowsWire(rows)
  {
    assert ([row] + rows)[1..] == rows;
    WordsAreBigEndian(|row| / 3, 0);
  }

  /** The layout of a message: its type, its header and its payload. */
  lemma MessageOctets(m: ServerMessage)
    requires MessageFits(m)
    ensures MessageWire(m) ==
            match m
            case FramebufferUpdate(padding, rects) => [0, padding] + [|rects| / 256, |rects| % 256] + RectsWire(rects)
            case SetColourMapEntries(head, colours) => [1] + head + colours
            case Bell => [2]
            case ServerCutText(gap, text) => [3] + gap + [|text| / 16777216, |text| / 65536 % 256, |text| / 256 % 256, |text| % 256] + text
            case Extension(kind, payload) => [128, kind] + [|payload| / 256, |payload| % 256] + payload
            case OtherMessage(number, payload) => [number] + payload
  {
    hide U16, U32;
    match m {
      case FramebufferUpdate(_, rects) => WordsAreBigEndian(|rects|, 0);
      case ServerCutText(_, text) => WordsAreBigEndian(0, |text|);
      case Extension(_, payload) => WordsAreBigEndian(|payload|, 0);
      case _ =>
    }
  }

  // ----- what a server may send, and what the client can frame -----

  /** The rectangles that the standards allow at 16 bits a pixel. */
  lemma RectLegalExactly(r: Rect)
    ensures RectLegal(r) <==>
            match r
            case Raw(a, pixels) => |pixels| == 2 * (a.width * a.height)
            case ContextInformation(_, info) => |info| == 20
            case DesktopSize(_) => true
            case RunLength(_, rows) => forall row <- rows :: |row| % 3 == 0 && |row| / 3 < 65536
            case OtherEncoding(_, e, _) => e !in {0, -223, -524, -525}
  {
    if r.RunLength? {
      RowsFitExactly(r.rows);
    }
  }

  lemma {:induction false} RowsFitExactly(rows: seq<seq<byte>>)
    ensures RowsFit(rows) <==> forall row <- rows :: |row| % 3 == 0 && |row| / 3 < 65536
  {
    if rows != [] {
      RowsFitExactly(rows[1..]);
      assert forall row :: row in rows <==> row == rows[0] || row in rows[1..];
    }
  }

  lemma {:induction false} RectsLegalExactly(rects: seq<Rect>)
    ensures RectsLegal(rects) <==> forall r <- rects :: RectLegal(r)
    ensures RectsFit(rects) <==> forall r <- rects :: RectFits(r)
  {
    hide RectLegal, RectFits;
    if rects != [] {
      RectsLegalExactly(rects[1..]);
      assert forall r :: r in rects <==> r == rects[0] || r in rects[1..];
    }
  }

  /** The messages that the standards allow. */
  lemma MessageLegalExactly(m: ServerMessage)
    ensures MessageLegal(m) <==>
            match m
            case FramebufferUpdate(_, rects) => |rects| < 65536 && forall r <- rects :: RectLegal(r)
            case SetColourMapEntries(head, colours) => |head| == 5 && |colours| == 6 * (256 * head[3] as int + head[4])
            case Bell => true
            case ServerCutText(gap, text) => |gap| == 3 && |text| < 0x1_0000_0000
            case Extension(_, payload) => |payload| < 65536
            case OtherMessage(number, _) => number !in {0, 1, 2, 3, 128}
  {
    hide RectLegal, RectFits;
    if m.FramebufferUpdate? {
      RectsLegalExactly(m.rects);
      forall r <- m.rects
        ensures RectLegal(r) ==> RectFits(r)
      {
        LegalFits(r);
      }
    }
  }

  lemma LegalFits(r: Rect)
    ensures RectLegal(r) ==> RectFits(r)
  {
  }

  /** The rectangles that the client frames, given the desktop it holds. */
  lemma RectConformsExactly(s: State, r: Rect)
    ensures RectConforms(s, r) <==>
            match r
            case Raw(a, _) =>
              || a.width == 0 || a.height == 0
              || (a.x + a.width <= s.width && a.y + a.height <= s.height && 2 * (a.width * a.height) < 0x8000_0000)
            case RunLength(_, rows) => |rows| == s.height
            case OtherEncoding(_, _, payload) => payload == []
            case _ => true
  {
  }

  /** The messages that it frames, given its status besides. */
  lemma MessageConformsExactly(s: State, m: ServerMessage)
    ensures MessageConforms(s, m) <==>
            match m
            case FramebufferUpdate(_, rects) => forall k | 0 <= k < |rects| :: RectConforms(AfterRects(s, rects[..k]), rects[k])
            case SetColourMapEntries(_, _) => false
            case Extension(kind, payload) =>
              (kind == 1 && s.status == 0 ==> |payload| <= 12) && (kind == 3 && s.status == 1 ==> |payload| <= 28)
            case OtherMessage(_, payload) => payload == []
            case _ => true
  {
    hide RectConforms;
    if m.FramebufferUpdate? {
      RectsConformExactly(s, m.rects);
    }
  }

  lemma {:induction false} RectsConformExactly(s: State, rects: seq<Rect>)
    ensures RectsConform(s, rects) <==> forall k | 0 <= k < |rects| :: RectConforms(AfterRects(s, rects[..k]), rects[k])
    decreases |rects|
  {
    hide RectConforms, AfterRect;
    if rects != [] {
      var t, rest := AfterRect(s, rects[0]), rects[1..];
      RectsConformExactly(t, rest);
      forall k | 1 <= k < |rects|
        ensures AfterRects(s, rects[..k]) == AfterRects(t, rest[..k - 1]) && rects[k] == rest[k - 1]
      {
        assert rects[..k][1..] == rest[..k - 1];
      }
      assert AfterRects(s, rects[..0]) == s;
      Shifted(s, t, rects);
    }
  }

  lemma Shifted(s: State, t: State, rects: seq<Rect>)
    requires rects != [] && AfterRects(s, rects[..0]) == s
    requires forall k | 1 <= k < |rects| :: AfterRects(s, rects[..k]) == AfterRects(t, rects[1..][..k - 1]) && rects[k] == rects[1..][k - 1]
    ensures (forall k | 0 <= k < |rects| :: RectConforms(AfterRects(s, rects[..k]), rects[k])) <==>
            RectConforms(s, rects[0]) && forall k | 0 <= k < |rects[1..]| :: RectConforms(AfterRects(t, rects[1..][..k]), rects[1..][k])
  {
    hide RectConforms, AfterRects;
    var rest := rects[1..];
    if forall k | 0 <= k < |rects| :: RectConforms(AfterRects(s, rects[..k]), rects[k]) {
      forall k | 0 <= k < |rest|
        ensures RectConforms(AfterRects(t, rest[..k]), rest[k])
      {
        assert rects[k + 1] == rest[(k + 1) - 1];
      }
    }
  }

  // ----- rectangles -----

  /** A Raw rectangle that ends at or before the right and lower edge is read whole and handed on. */
  lemma RawTaken(s: State, b: seq<byte>, at: nat, a: Area, pixels: seq<byte>)
    requires 0 < a.width && 0 < a.height && a.x + a.width <= s.width && a.y + a.height <= s.height
    requires |pixels| == 2 * (a.width * a.height) < 0x8000_0000
    requires At(b, at, RectWire(Raw(a, pixels)))
    ensures ParseRect(s, b, at) == Ok(Raw(a, pixels), at + 12 + |pixels|)
    ensures PaintsOfRect(s, Raw(a, pixels)) == [Paint(s.width, s.height, a, pixels)]
  {
    hide At, ParseRect, RectWire;
    RectExact(s, b, at, Raw(a, pixels));
    RectLength(Raw(a, pixels));
  }

  lemma RectLength(r: Rect)
    ensures |RectWire(r)| == 12 + |PayloadWire(r)|
  {
  }

  /** One that is a column or a row too large is passed over after its header, so that its pixels are misread. */
  lemma RawSkipped(s: State, b: seq<byte>, at: nat, a: Area, pixels: seq<byte>)
    requires 0 < a.width && 0 < a.height && (s.width < a.x + a.width || s.height < a.y + a.height)
    requires At(b, at, RectWire(Raw(a, pixels)))
    ensures ParseRect(s, b, at) == Ok(Raw(a, []), at + 12)
    ensures PaintsOfRect(s, Raw(a, [])) == []
    ensures pixels != [] ==> at + 12 != at + |RectWire(Raw(a, pixels))|
  {
    hide At, RectWire, Read16, Read32;
    HeadRoundTrip(b, at, Raw(a, pixels));
  }

  /** One without area has no pixels, and nothing is handed on. */
  lemma RawEmpty(s: State, b: seq<byte>, at: nat, a: Area)
    requires a.width == 0 || a.height == 0
    requires At(b, at, RectWire(Raw(a, [])))
    ensures ParseRect(s, b, at) == Ok(Raw(a, []), at + 12)
    ensures PaintsOfRect(s, Raw(a, [])) == []
  {
    hide At, RectWire, Read16, Read32;
    HeadRoundTrip(b, at, Raw(a, []));
  }

  /** The other rectangles: what is read of them, and that only DesktopSize resizes. */
  lemma RectTaken(s: State, b: seq<byte>, at: nat, r: Rect)
    requires RectFits(r) && !r.Raw? && At(b, at, RectWire(r))
    requires r.RunLength? ==> |r.rows| == s.height
    ensures ParseRect(s, b, at) ==
            match r
            case OtherEncoding(a, e, _) => Ok(OtherEncoding(a, e, []), at + 12)
            case ContextInformation(_, _) => Ok(r, at + 32)
            case DesktopSize(_) => Ok(r, at + 12)
            case _ => Ok(r, at + |RectWire(r)|)
    ensures AfterRect(s, r) == if r.DesktopSize? then s.(width := r.area.width, height := r.area.height) else s
    ensures PaintsOfRect(s, r) == []
  {
    hide At, RectWire, Read16, Read32, RowsWire;
    HeadRoundTrip(b, at, r);
    RectExact(s, b, at, r);
    RectLength(r);
  }

  /** The size is that of the last DesktopSize rectangle, whatever comes before and after it, or the initial one. */
  lemma {:induction false} LatestExactly(initial: (uint16, uint16), before: seq<Rect>, a: Area, after: seq<Rect>)
    requires forall r <- after :: Encoding(r) != -223
    ensures LatestSize(initial, before + [DesktopSize(a)] + after) == (a.width, a.height)
    ensures LatestSize(initial, after) == initial
    decreases |after|
  {
    var all := before + [DesktopSize(a)] + after;
    if after == [] {
      assert all == before + [DesktopSize(a)];
    } else {
      var n := |after| - 1;
      assert all[..|all| - 1] == before + [DesktopSize(a)] + after[..n];
      LatestExactly(initial, before, a, after[..n]);
      assert after[n] in after;
    }
  }

  // ----- which updates are answered, and how -----

  /** An update is answered iff it has a rectangle of one of the four encodings that the client knows. */
  lemma AnsweredExactly(padding: byte, rects: seq<Rect>)
    requires RectsFit(rects)
    ensures Answered(FramebufferUpdate(padding, rects)) <==> exists r <- rects :: Encoding(r) in {0, -524, -223, -525}
    ensures Resizes(FramebufferUpdate(padding, rects)) <==> exists r <- rects :: Encoding(r) == -223
  {
    forall r <- rects
      ensures Refreshes(r) <==> Encoding(r) in {0, -524, -223, -525}
      ensures r.DesktopSize? <==> Encoding(r) == -223
    {
      EachFits(rects, r);
    }
  }

  lemma {:induction false} EachFits(rects: seq<Rect>, r: Rect)
    requires RectsFit(rects) && r in rects
    ensures RectFits(r)
  {
    hide RectFits;
    if r != rects[0] {
      EachFits(rects[1..], r);
    }
  }

  /** The octets that answer an update: a request for the desktop as it is then. */
  lemma AnswerOctets(s: State, padding: byte, rects: seq<Rect>)
    requires RectsFit(rects)
    ensures var sent := ClientsWire(Replies(s, FramebufferUpdate(padding, rects)));
            var size := LatestSize((s.width, s.height), rects);
            sent ==
            if exists r <- rects :: Encoding(r) in {0, -524, -223, -525} then
              [3, if exists r <- rects :: Encoding(r) == -223 then 0 else 1, 0, 0, 0, 0]
              + [size.0 / 256, size.0 % 256] + [size.1 / 256, size.1 % 256]
            else []
  {
    hide Answered, Resizes, AfterRects, ClientWire, LatestSize, Encoding;
    var m := FramebufferUpdate(padding, rects);
    AnsweredExactly(padding, rects);
    AfterRectsSize(s, rects);
    if Answered(m) {
      var c := Request(AfterMessage(s, m), if Resizes(m) then 0 else 1);
      assert Replies(s, m) == [c];
      RequestOctets(c.incremental, c.width, c.height);
    }
  }

  lemma RequestOctets(incremental: byte, width: uint16, height: uint16)
    ensures ClientsWire([UpdateRequest(incremental, 0, 0, width, height)]) ==
            [3, incremental, 0, 0, 0, 0] + [width / 256, width % 256] + [height / 256, height % 256]
  {
    hide U16, U32;
    var c := UpdateRequest(incremental, 0, 0, width, height);
    assert [c][1..] == [];
    WordsAreBigEndian(0, 0);
    WordsAreBigEndian(width, 0);
    WordsAreBigEndian(height, 0);
    assert ClientsWire([c]) == ClientWire(c) + [];
    assert [3, incremental] + [0, 0] + [0, 0] == [3, incremental, 0, 0, 0, 0];
  }

  // ----- the configuration -----

  /** The first Server Display Configuration: status 1, a copy of it, and the client's 26 octets: 800 by 480. */
  lemma DisplayTaken(s: State, payload: seq<byte>)
    requires s.status == 0 && |s.displayInfo| == 12 && |payload| <= 12
    ensures AfterMessage(s, Extension(1, payload)) == s.(status := 1, displayInfo := payload + s.displayInfo[|payload|..])
    ensures ClientsWire(Replies(s, Extension(1, payload))) ==
            [128, 2, 0, 22] + ([1, 1, 0, 0] + [3, 32] + [1, 224] + [0, 0, 0, 0, 0, 0, 0, 1, 0, 0, 0, 0, 0, 1])
  {
    hide ClientWire, DISPLAY_REPLY;
    var c := ClientExtension(CLIENT_DISPLAY, DISPLAY_REPLY);
    assert Replies(s, Extension(1, payload)) == [c] && [c][1..] == [];
    assert ClientsWire([c]) == ClientWire(c) + [];
    DisplayOctets();
  }

  lemma DisplayOctets()
    ensures ClientWire(ClientExtension(CLIENT_DISPLAY, DISPLAY_REPLY)) ==
            [128, 2, 0, 22] + ([1, 1, 0, 0] + [3, 32] + [1, 224] + [0, 0, 0, 0, 0, 0, 0, 1, 0, 0, 0, 0, 0, 1])
  {
    assert U16(800) == [3, 32] && U16(480) == [1, 224];
    assert [128, 2] + U16(22) == [128, 2, 0, 22];
  }

  /**
  The first Server Event Configuration after it: status 2, a copy of it, and the client's event
  configuration, its RGB 565 pixel format and a non-incremental request for the whole desktop.
  */
  lemma EventTaken(s: State, payload: seq<byte>)
    requires s.status == 1 && |s.eventInfo| == 28 && |payload| <= 28
    ensures AfterMessage(s, Extension(3, payload)) == s.(status := 2, eventInfo := payload + s.eventInfo[|payload|..])
    ensures ClientsWire(Replies(s, Extension(3, payload))) ==
            ([128, 4, 0, 28] + [0, 0, 0, 0, 0, 0, 0, 0, 0, 0, 0, 0, 0, 0, 0, 0, 0, 0, 0, 0, 0, 0, 0, 0, 0, 0, 1, 1])
            + (([0, 0, 0, 0] + ([16, 16, 1, 1] + [0, 31] + [0, 63] + [0, 31] + [11, 5, 0, 0, 0, 0]))
               + ([3, 0, 0, 0, 0, 0] + [s.width / 256, s.width % 256] + [s.height / 256, s.height % 256]))
  {
    hide ClientWire, EVENT_REPLY, RGB565;
    var a, b, c := ClientExtension(CLIENT_EVENT, EVENT_REPLY), SetPixelFormat(RGB565), Request(s, 0);
    assert Replies(s, Extension(3, payload)) == [a, b, c];
    assert [a, b, c][1..] == [b, c] && [b, c][1..] == [c];
    EventOctets();
    RequestOctets(0, s.width, s.height);
    assert ClientsWire([a, b, c]) == ClientWire(a) + (ClientWire(b) + ClientsWire([c]));
  }

  lemma EventOctets()
    ensures ClientWire(ClientExtension(CLIENT_EVENT, EVENT_REPLY)) ==
            [128, 4, 0, 28] + [0, 0, 0, 0, 0, 0, 0, 0, 0, 0, 0, 0, 0, 0, 0, 0, 0, 0, 0, 0, 0, 0, 0, 0, 0, 0, 1, 1]
    ensures ClientWire(SetPixelFormat(RGB565)) ==
            [0, 0, 0, 0] + ([16, 16, 1, 1] + [0, 31] + [0, 63] + [0, 31] + [11, 5, 0, 0, 0, 0])
  {
    assert [128, 4] + U16(28) == [128, 4, 0, 28];
    assert U16(31) == [0, 31] && U16(63) == [0, 63];
  }

  /** A ByeBye is answered with one. */
  lemma ByeByeAnswered(s: State, payload: seq<byte>)
    ensures IsByeBye(Extension(0, payload)) && AfterMessage(s, Extension(0, payload)) == s
    ensures ClientsWire(Replies(s, Extension(0, payload))) == [128, 0, 0, 0]
  {
    var c := ClientExtension(0, []);
    assert Replies(s, Extension(0, payload)) == [c] && [c][1..] == [];
    assert [128, 0] + U16(0) == [128, 0, 0, 0];
    assert ClientWire(c) == [128, 0, 0, 0] + [];
  }

  /** Every other message changes nothing, says nothing and does not end the session. */
  lemma OthersChangeNothing(s: State, m: ServerMessage)
    requires !m.FramebufferUpdate?
    requires m.Extension? ==> m.kind != 0 && !(m.kind == 1 && s.status == 0) && !(m.kind == 3 && s.status == 1)
    ensures AfterMessage(s, m) == s && Replies(s, m) == [] && !IsByeBye(m)
  {
  }

  /** No configuration is longer than the struct that it is copied to. */
  predicate FitsStructs(s: State, messages: seq<ServerMessage>)
    decreases |messages|
  {
    messages == []
    || (var m := messages[0];
        && (m.Extension? && m.kind == 1 && s.status == 0 ==> |m.payload| <= 12)
        && (m.Extension? && m.kind == 3 && s.status == 1 ==> |m.payload| <= 28)
        && FitsStructs(AfterMessage(s, m), messages[1..]))
  }

  predicate IsDisplayConfiguration(m: ServerMessage) {
    m.Extension? && m.kind == 1
  }

  predicate IsEventConfiguration(m: ServerMessage) {
    m.Extension? && m.kind == 3
  }

  /** What one message does to the status. */
  lemma StatusStep(s: State, m: ServerMessage)
    requires StateOk(s) && FitsStructs(s, [m])
    ensures var t := AfterMessage(s, m);
            && StateOk(t)
            && t.status == if s.status == 0 && m.Extension? && m.kind == 1 then 1
                           else if s.status == 1 && m.Extension? && m.kind == 3 then 2
                           else s.status
  {
    if m.FramebufferUpdate? {
      AfterRectsKeeps(s, m.rects);
    }
  }

  lemma {:induction false} StatusFromOne(s: State, messages: seq<ServerMessage>)
    requires StateOk(s) && 1 <= s.status && FitsStructs(s, messages)
    ensures 1 <= AfterMessages(s, messages).status <= 2
    ensures AfterMessages(s, messages).status == 2 <==> s.status == 2 || exists m <- messages :: IsEventConfiguration(m)
    decreases |messages|
  {
    hide AfterMessage;
    if messages != [] {
      var m := messages[0];
      StatusStep(s, m);
      StatusFromOne(AfterMessage(s, m), messages[1..]);
      FirstOrLater(messages);
    }
  }

  /**
  The client becomes configured: in every run from status 0 it has left that status iff a
  Server Display Configuration has come, and is at status 2 iff a Server Event Configuration
  has come after one.
  */
  lemma {:induction false} StatusExactly(s: State, messages: seq<ServerMessage>)
    requires StateOk(s) && s.status == 0 && FitsStructs(s, messages)
    ensures var t := AfterMessages(s, messages);
            && (1 <= t.status <==> exists m <- messages :: m.Extension? && m.kind == 1)
            && (t.status == 2 <==> exists i, j | 0 <= i < j < |messages| ::
                                     IsDisplayConfiguration(messages[i]) && IsEventConfiguration(messages[j]))
    decreases |messages|
  {
    hide AfterMessage;
    if messages != [] {
      var m, rest := messages[0], messages[1..];
      StatusStep(s, m);
      if IsDisplayConfiguration(m) {
        StatusFromOne(AfterMessage(s, m), rest);
        AfterFirst(messages);
      } else {
        StatusExactly(AfterMessage(s, m), rest);
        NotFirst(messages);
      }
    }
  }

  lemma FirstOrLater(messages: seq<ServerMessage>)
    requires messages != []
    ensures (exists m <- messages :: IsEventConfiguration(m)) <==>
            IsEventConfiguration(messages[0]) || exists m <- messages[1..] :: IsEventConfiguration(m)
  {
    assert forall x :: x in messages <==> x == messages[0] || x in messages[1..];
  }

  lemma AfterFirst(messages: seq<ServerMessage>)
    requires messages != [] && IsDisplayConfiguration(messages[0])
    ensures (exists m <- messages[1..] :: IsEventConfiguration(m)) <==>
            (exists i, j | 0 <= i < j < |messages| :: IsDisplayConfiguration(messages[i]) && IsEventConfiguration(messages[j]))
  {
    assert forall j | 1 <= j < |messages| :: messages[j] == messages[1..][j - 1];
  }

  lemma NotFirst(messages: seq<ServerMessage>)
    requires messages != [] && !IsDisplayConfiguration(messages[0])
    ensures (exists m <- messages[1..] :: m.Extension? && m.kind == 1) <==> (exists m <- messages :: m.Extension? && m.kind == 1)
    ensures (exists i, j | 0 <= i < j < |messages[1..]| ::
               IsDisplayConfiguration(messages[1..][i]) && IsEventConfiguration(messages[1..][j])) <==>
            (exists i, j | 0 <= i < j < |messages| :: IsDisplayConfiguration(messages[i]) && IsEventConfiguration(messages[j]))
  {
    assert forall x :: x in messages <==> x == messages[0] || x in messages[1..];
    assert forall j | 1 <= j < |messages| :: messages[j] == messages[1..][j - 1];
  }

  /** The three configuration messages, and the prefix of them that each status stands for. */
  lemma ConfigurationsExactly(c: ClientMessage)
    ensures Configures(c) <==> c.SetPixelFormat? || (c.ClientExtension? && c.kind in {2, 4})
    ensures Configured(0) == [] && Configured(1) == Configured(2)[..1] && |Configured(2)| == 3
    ensures var three := Configured(2);
            three[0].ClientExtension? && three[0].kind == 2 && three[1].ClientExtension? && three[1].kind == 4 && three[2].SetPixelFormat?
  {
  }

  /** What is taken off a stream never overruns a struct. */
  lemma {:induction false} ParsedFits(s: State, b: seq<byte>, at: nat, k: nat)
    requires at <= |b|
    ensures var p := ParseFirst(s, b, at, k); p.Ok? ==> FitsStructs(s, p.value)
    decreases k
  {
    hide ParseMessage, AfterMessage, IsByeBye;
    if 0 < k {
      var m := ParseMessage(s, b, at);
      if m.Ok? {
        MessageFitsStruct(s, b, at);
        if IsByeBye(m.value) {
          assert [m.value][1..] == [];
        } else {
          var p := ParseFirst(AfterMessage(s, m.value), b, m.end, k - 1);
          if p.Ok? {
            ParsedFits(AfterMessage(s, m.value), b, m.end, k - 1);
            ConsEquals(m.value, p.value, [m.value] + p.value);
          }
        }
      }
    }
  }

  /**
  On every stream, after any number of turns: the client has left status 0 iff it has taken in
  a Server Display Configuration, and reached status 2 iff a Server Event Configuration after one.
  */
  lemma ConfiguredOnStream(s: State, b: seq<byte>, at: nat, turns: nat)
    requires at <= |b| && StateOk(s) && s.status == 0
    ensures var p := ParseFirst(s, b, at, turns);
            p.Ok? ==>
              var t := AfterMessages(s, p.value);
              && (1 <= t.status <==> exists m <- p.value :: m.Extension? && m.kind == 1)
              && (t.status == 2 <==> exists i, j | 0 <= i < j < |p.value| ::
                                       IsDisplayConfiguration(p.value[i]) && IsEventConfiguration(p.value[j]))
  {
    hide ParseFirst, AfterMessages, FitsStructs;
    var p := ParseFirst(s, b, at, turns);
    if p.Ok? {
      ParsedFits(s, b, at, turns);
      StatusExactly(s, p.value);
    }
  }

  lemma MessageFitsStruct(s: State, b: seq<byte>, at: nat)
    requires at <= |b| && ParseMessage(s, b, at).Ok?
    ensures var m := ParseMessage(s, b, at).value;
            m.Extension? ==> (m.kind == 1 && s.status == 0 ==> |m.payload| <= 12) && (m.kind == 3 && s.status == 1 ==> |m.payload| <= 28)
  {
    hide Read16, Read32;
  }

  /** A configuration of any length that fits is taken off the stream whole; a longer one has no meaning in C. */
  lemma ConfigurationTaken(s: State, b: seq<byte>, at: nat, kind: byte, payload: seq<byte>)
    requires |payload| < 0x1_0000 && At(b, at, MessageWire(Extension(kind, payload)))
    ensures ParseMessage(s, b, at) ==
            if (kind == 1 && s.status == 0 && 12 < |payload|) || (kind == 3 && s.status == 1 && 28 < |payload|) then Undefined
            else Ok(Extension(kind, payload), at + 4 + |payload|)
  {
    hide ParseMessage, At;
    ExtensionExact(s, b, at, kind, payload);
  }

  /** The code's own SetColourMapEntries: six octets of header, and none of the colours it has no room for. */
  lemma ColourMapTaken(s: State, b: seq<byte>, at: nat)
    requires at + 7 <= |b| && b[at] == 1
    ensures ParseMessage(s, b, at) ==
            if b[at + 5] == 0 && b[at + 6] == 0 then Ok(SetColourMapEntries(b[at + 1..at + 7], []), at + 7) else Undefined
  {
  }

  // ----- requests -----

  /** One request for every update with a known rectangle, and one on entering status 2. */
  lemma RequestsExactly(s: State, m: ServerMessage)
    requires StateOk(s) && MessageFits(m) && FitsStructs(s, [m])
    ensures CountRequests(Replies(s, m)) ==
            if m.FramebufferUpdate? then
              if exists r <- m.rects :: Encoding(r) in {0, -524, -223, -525} then 1 else 0
            else if m.Extension? && m.kind == 3 && s.status == 1 then 1 else 0
  {
    hide Answered, AfterMessage, Replies, RectsFit;
    RequestsOfMessage(s, m);
    StatusStep(s, m);
    if m.FramebufferUpdate? {
      AnsweredExactly(m.padding, m.rects);
    } else {
      OnlyUpdates(m);
    }
  }

  lemma OnlyUpdates(m: ServerMessage)
    ensures !m.FramebufferUpdate? ==> !Answered(m)
  {
  }

  // ----- everything the client writes -----

  /**
  What a server reads from the client, from its first octet to any moment of the session: the
  version, security type 1, ClientInit with flag 0, SetEncodings, and then the answers to its
  messages in order, with nothing between them.
  */
  lemma WholeOutput(version: seq<byte>, s: State, messages: seq<ServerMessage>)
    requires |version| == 12
    ensures var sent := GreetingWire(version) + ClientsWire(AllReplies(s, messages));
            && 14 <= |sent| && sent[..12] == version && sent[12] == 1 && sent[13] == 0
            && ParseClients(sent, 14) == Ok([SetEncodings([-525, 0, -523, -524, -223])] + AllReplies(s, messages), |sent|)
  {
    hide GreetingWire, ClientsWire, AllReplies, ParseClients, ClientWire, At, ClientsFit;
    var replies := AllReplies(s, messages);
    var cs := [ENCODINGS] + replies;
    GreetingOctets(version);
    RepliesFit(s, messages);
    FitsCons(ENCODINGS, replies);
    var sent := GreetingWire(version) + ClientsWire(replies);
    WireCons(ENCODINGS, replies);
    AtAll(sent);
    assert sent == (version + [1, 0]) + ClientsWire(cs);
    AtSplit(sent, 0, version + [1, 0], ClientsWire(cs));
    ClientsRoundTrip(sent, 14, cs);
  }

  lemma FitsCons(c: ClientMessage, cs: seq<ClientMessage>)
    requires ClientFits(c) && ClientsFit(cs)
    ensures ClientsFit([c] + cs)
  {
    assert ([c] + cs)[1..] == cs;
  }

  lemma WireCons(c: ClientMessage, cs: seq<ClientMessage>)
    ensures ClientsWire([c] + cs) == ClientWire(c) + ClientsWire(cs)
  {
    hide ClientWire;
    assert ([c] + cs)[1..] == cs;
  }
}
