/**
CoreStack/vnc_session.c: the session as the code runs it, over a socket whose transfers may
be cut short and interrupted in any way that does not make one fail.
*/
module VncSessions {
  import opened Bytes
  import opened Environment
  import opened Buffers
  import opened Conn
  import opened RfbWire
  import opened RfbParse
  import opened RfbClient
  import opened RfbHandshake
  import opened RfbRuns

  /** Reads `n` octets into a new buffer, where so many are still to come. */
  method Receive(sock: Socket, n: uint32) returns (buf: array<byte>)
    requires sock.Valid() && sock.QuietIn() && sock.got + n <= |sock.stream|
    modifies sock`got, sock`selectAt, sock`readAt, sock`trace
    ensures fresh(buf) && buf.Length == n
    ensures sock.Valid() && sock.got == old(sock.got) + n
    ensures buf[..] == Slice(sock.stream, old(sock.got), sock.got)
  {
    buf := new byte[n];
    var _ := ConnRead(sock, buf, 0, n);
  }

  /** Writes octets that have been laid out in a buffer. */
  method Transmit(sock: Socket, data: seq<byte>)
    requires sock.Valid() && sock.Quiet() && |data| < 0x1_0000_0000
    modifies sock`sent, sock`selectAt, sock`writeAt
    ensures sock.Valid() && sock.sent == old(sock.sent) + data
  {
    var buf := new byte[|data|](i requires 0 <= i < |data| => data[i]);
    assert buf[..] == data;
    var _ := ConnWrite(sock, buf, |data|);
    assert buf[..|data|] == data;
  }

  lemma Word16OfSlice(b: seq<byte>, at: nat, part: seq<byte>, k: nat)
    requires k + 2 <= |part| && at + |part| <= |b| && part == Slice(b, at, at + |part|)
    ensures Word16(part[k], part[k + 1]) == Read16(b, at + k)
  {
  }

  lemma Word32OfSlice(b: seq<byte>, at: nat, part: seq<byte>, k: nat)
    requires k + 4 <= |part| && at + |part| <= |b| && part == Slice(b, at, at + |part|)
    ensures Word32(part[k], part[k + 1], part[k + 2], part[k + 3]) == Read32(b, at + k)
  {
  }

  // ----- what the type octet says of the message behind it -----

  lemma TypeOnStream(s: State, b: seq<byte>, at: nat)
    requires at <= |b| && ParseMessage(s, b, at).Ok?
    ensures at < |b|
  {
  }

  lemma UpdateOnStream(s: State, b: seq<byte>, at: nat)
    requires at < |b| && ParseMessage(s, b, at).Ok? && b[at] == 0
    ensures at + 4 <= |b| && var q := ParseRects(s, b, at + 4, Read16(b, at + 2));
            q.Ok? && ParseMessage(s, b, at) == Ok(FramebufferUpdate(b[at + 1], q.value), q.end)
  {
    hide Read16, ParseRects;
  }

  lemma ColourMapOnStream(s: State, b: seq<byte>, at: nat)
    requires at < |b| && ParseMessage(s, b, at).Ok? && b[at] == 1
    ensures at + 7 <= |b| && Read16(b, at + 5) == 0
    ensures ParseMessage(s, b, at) == Ok(SetColourMapEntries(Slice(b, at + 1, at + 7), []), at + 7)
  {
    hide Read16, Slice;
  }

  lemma CutTextOnStream(s: State, b: seq<byte>, at: nat)
    requires at < |b| && ParseMessage(s, b, at).Ok? && b[at] == 3
    ensures at + 8 <= |b| && var end := at + 8 + Read32(b, at + 4);
            && end <= |b|
            && ParseMessage(s, b, at) == Ok(ServerCutText(Slice(b, at + 1, at + 4), Slice(b, at + 8, end)), end)
  {
    hide Read32, Slice;
  }

  lemma ExtensionOnStream(s: State, b: seq<byte>, at: nat)
    requires at < |b| && ParseMessage(s, b, at).Ok? && b[at] == 128
    ensures at + 4 <= |b| && var end := at + 4 + Read16(b, at + 2);
            && end <= |b| && !Overruns(s, b[at + 1], end - at - 4)
            && ParseMessage(s, b, at) == Ok(Extension(b[at + 1], Slice(b, at + 4, end)), end)
  {
    hide Read16, Slice;
  }

  lemma OtherOnStream(s: State, b: seq<byte>, at: nat)
    requires at < |b| && b[at] !in {0, 1, 3, 128}
    ensures ParseMessage(s, b, at) == Ok(if b[at] == 2 then Bell else OtherMessage(b[at], []), at + 1)
  {
  }

  // ----- one more rectangle -----

  lemma {:induction false} AfterRectsOneMore(s: State, rects: seq<Rect>, r: Rect)
    ensures AfterRects(s, rects + [r]) == AfterRect(AfterRects(s, rects), r)
    decreases |rects|
  {
    hide AfterRect;
    if rects == [] {
      assert [r][1..] == [] && rects + [r] == [r];
    } else {
      assert (rects + [r])[1..] == rects[1..] + [r];
      AfterRectsOneMore(AfterRect(s, rects[0]), rects[1..], r);
    }
  }

  lemma {:induction false} PaintsOneMore(s: State, rects: seq<Rect>, r: Rect)
    ensures PaintsOfRects(s, rects + [r]) == PaintsOfRects(s, rects) + PaintsOfRect(AfterRects(s, rects), r)
    decreases |rects|
  {
    hide AfterRect, PaintsOfRect;
    if rects == [] {
      assert [r][1..] == [] && rects + [r] == [r];
      assert PaintsOfRects(s, [r]) == PaintsOfRect(s, r) + [];
    } else {
      assert (rects + [r])[1..] == rects[1..] + [r];
      PaintsOneMore(AfterRect(s, rects[0]), rects[1..], r);
    }
  }

  // ----- words in host order -----

  /** A 32-bit word as the little-endian host reads it: the code does not convert these. */
  function HostWord(b: seq<byte>): uint32
    requires |b| == 4
  {
    Word32(b[3], b[2], b[1], b[0])
  }

  lemma ResultWords(b: seq<byte>)
    requires |b| == 4
    ensures HostWord(b) == 0 <==> b == RESULT_OK
    ensures HostWord(b) == 1 <==> b == [1, 0, 0, 0]
  {
    assert b == [b[0], b[1], b[2], b[3]];
  }

  /**
  The reason of a refusal (RFC 6143 section 7.1.2) is dropped exactly iff its length reads the
  same in both orders; no reason that has fewer than 65792 octets and is not empty is.
  */
  lemma ReasonExact(b: seq<byte>, at: nat, reason: seq<byte>)
    requires |reason| < 0x1_0000_0000 && At(b, at, U32(|reason|) + reason)
    ensures var end := at + 4 + HostWord(Slice(b, at, at + 4));
            var w := U32(|reason|);
            && (end == at + |w + reason| <==> w[0] == w[3] && w[1] == w[2])
            && (0 < |reason| < 0x1_0100 ==> end != at + |w + reason|)
  {
    hide U32, Word32, At, Slice;
    AtSplit(b, at, U32(|reason|), reason);
    FourOctets(|reason|);
    SliceAt(b, at, U32(|reason|));
    var w := U32(|reason|);
    Reversed(w[0], w[1], w[2], w[3]);
  }

  lemma FourOctets(n: uint32)
    ensures var w := U32(n); |w| == 4 && Word32(w[0], w[1], w[2], w[3]) == n
  {
    hide Word32;
    U32RoundTrip(n);
  }

  lemma Reversed(b0: byte, b1: byte, b2: byte, b3: byte)
    ensures Word32(b3, b2, b1, b0) == Word32(b0, b1, b2, b3) <==> b0 == b3 && b1 == b2
    ensures b0 == b3 && b1 == b2 && 0 < Word32(b0, b1, b2, b3) ==> 0x1_0100 <= Word32(b0, b1, b2, b3)
  {
  }

  // ----- the session -----

  class VncSession {
    const sock: Socket
    var status: nat
    var width: uint16
    var height: uint16
    var displayInfo: seq<byte>   // struct server_dispinfo
    var eventInfo: seq<byte>     // struct server_evinfo
    ghost var log: seq<ServerMessage>   // the messages taken in so far
    ghost var painted: seq<Paint>       // the calls of `framebuffer_raw_parse` so far

    constructor (sock: Socket, displayInfo: seq<byte>, eventInfo: seq<byte>)
      requires |displayInfo| == DISPLAY_INFO_SIZE && |eventInfo| == EVENT_INFO_SIZE
      ensures this.sock == sock && StateOk(Now()) && log == [] && painted == []
      ensures this.displayInfo == displayInfo && this.eventInfo == eventInfo
    {
      this.sock, status, width, height := sock, 0, 0, 0;
      this.displayInfo, this.eventInfo := displayInfo, eventInfo;
      log, painted := [], [];
    }

    ghost function Now(): State
      reads this
    {
      State(status, width, height, displayInfo, eventInfo)
    }

    ghost predicate Live()
      reads this, sock
    {
      sock.Valid() && sock.Quiet() && StateOk(Now())
    }

    method FramebufferRawParse(ghost area: Area, fb: array<byte>, len: nat)
      requires fb.Length == len
      modifies `painted
      ensures painted == old(painted) + [Paint(width, height, area, fb[..])]
    {
      painted := painted + [Paint(width, height, area, fb[..])];
    }

    /** Reads one row for every row of the desktop. */
    method FramebufferRleParse() returns (ghost rows: seq<seq<byte>>)
      requires Live() && ParseRows(sock.stream, sock.got, height).Ok?
      modifies sock
      ensures Live() && sock.sent == old(sock.sent)
      ensures ParseRows(sock.stream, old(sock.got), height) == Ok(rows, sock.got)
    {
      hide Slice, Word16, Read16;
      ghost var p := ParseRows(sock.stream, sock.got, height);
      rows := [];
      assert rows + p.value == p.value;
      var i: uint16 := 0;
      while i < height
        invariant i <= height && Live() && sock.sent == old(sock.sent)
        invariant var q := ParseRows(sock.stream, sock.got, height - i);
                  q.Ok? && p == Ok(rows + q.value, q.end)
      {
        ghost var mark := sock.got;
        ghost var q := ParseRows(sock.stream, mark, height - i);
        var buf := Receive(sock, 2);
        var m: int := Word16(buf[0], buf[1]);
        Word16OfSlice(sock.stream, mark, buf[..], 0);
        var fb := Receive(sock, 3 * m);
        ghost var rest := ParseRows(sock.stream, sock.got, height - i - 1).value;
        assert q.value == [fb[..]] + rest;
        RowMoves(rows, fb[..], rest);
        rows := rows + [fb[..]];
        i := i + 1;
      }
      NoRowsLeft(sock.stream, sock.got, rows);
    }

    /** The body of the rectangle loop. */
    method RectParse() returns (refreshes: bool, resizes: bool, ghost r: Rect)
      requires Live() && ParseRect(Now(), sock.stream, sock.got).Ok?
      modifies this, sock
      ensures var p := old(ParseRect(Now(), sock.stream, sock.got));
              && Live() && p == Ok(r, sock.got) && sock.sent == old(sock.sent)
              && Now() == AfterRect(old(Now()), r)
              && painted == old(painted) + PaintsOfRect(old(Now()), r)
              && log == old(log)
              && refreshes == Refreshes(r) && resizes == r.DesktopSize?
    {
      hide Slice, Word16, Word32, Read16, Read32, RawSize;
      ghost var s, mark := Now(), sock.got;
      refreshes, resizes := false, false;
      var buf := Receive(sock, 12);
      // `int`, as C promotes its 16-bit operands
      var px: int, py: int := Word16(buf[0], buf[1]), Word16(buf[2], buf[3]);
      var w: int, h: int := Word16(buf[4], buf[5]), Word16(buf[6], buf[7]);
      var encoding := Signed(Word32(buf[8], buf[9], buf[10], buf[11]));
      HeadOfSlice(sock.stream, mark, buf[..]);
      ghost var area := ParseArea(sock.stream, mark);
      assert ParseRect(s, sock.stream, mark) == ParsePayload(s, area, encoding, sock.stream, mark + 12);
      r := Raw(area, []);
      if encoding == RAW {
        refreshes := true;
        if w == 0 || h == 0 {
        } else if width < px + w || height < py + h {
        } else {
          var len: int := w * h * 2;
          RawSizeIs(area);
          var fb := Receive(sock, len);
          FramebufferRawParse(area, fb, len);
          r := Raw(area, fb[..]);
        }
      } else if encoding == CONTEXT_INFORMATION {
        var info := Receive(sock, 20);
        refreshes := true;
        r := ContextInformation(area, info[..]);
      } else if encoding == DESKTOP_SIZE {
        width, height := w, h;
        resizes, refreshes := true, true;
        r := DesktopSize(area);
      } else if encoding == RUN_LENGTH {
        ghost var rows := FramebufferRleParse();
        refreshes := true;
        r := RunLength(area, rows);
      } else {
        r := OtherEncoding(area, encoding, []);
      }
    }

    /** `num` rectangles, and then the next request if any of them refreshed the picture. */
    method FbUpdateParse(num: uint16) returns (ghost rects: seq<Rect>)
      requires Live() && ParseRects(Now(), sock.stream, sock.got, num).Ok?
      modifies this, sock
      ensures var p := old(ParseRects(Now(), sock.stream, sock.got, num));
              && Live() && p == Ok(rects, sock.got) && Now() == AfterRects(old(Now()), rects)
              && painted == old(painted) + PaintsOfRects(old(Now()), rects) && log == old(log)
              && sock.sent == old(sock.sent) + UpdateReply(old(Now()), rects)
    {
      hide ParseRect, ParseRects, AfterRect, AfterRects, PaintsOfRect, PaintsOfRects, Answered, Resizes, UpdateReply, Refreshes;
      ghost var s, sent, calls := Now(), sock.sent, painted;
      ghost var p := ParseRects(s, sock.stream, sock.got, num);
      ghost var all := p.value;
      rects := [];
      var fbUpdate, inc := 0, 1;
      var i: uint16 := 0;
      NoRects(s, all);
      while i < num
        invariant i <= num && Live() && sock.sent == sent && log == old(log)
        invariant ParseRects(Now(), sock.stream, sock.got, num - i) == Ok(all[i..], p.end)
        invariant rects == all[..i] && Now() == AfterRects(s, rects)
        invariant painted == calls + PaintsOfRects(s, rects)
        invariant fbUpdate == if Answered(FramebufferUpdate(0, rects)) then 1 else 0
        invariant inc == if Resizes(FramebufferUpdate(0, rects)) then 0 else 1
      {
        NextRect(Now(), sock.stream, sock.got, num - i, all, i, p.end);
        OneMoreRect(s, all, i);
        ghost var r;
        var refreshes, resizes;
        refreshes, resizes, r := RectParse();
        rects := rects + [r];
        if refreshes {
          fbUpdate := 1;
        }
        if resizes {
          inc := 0;
        }
        i := i + 1;
      }
      AllRectsRead(Now(), sock.stream, sock.got, all);
      if fbUpdate != 0 {
        RequestUpdate(inc);
      }
      UpdateReplyIs(s, rects, fbUpdate, inc);
    }

    /** FramebufferUpdateRequest for the whole desktop. */
    method RequestUpdate(inc: byte)
      requires Live()
      modifies sock`sent, sock`selectAt, sock`writeAt
      ensures Live() && sock.sent == old(sock.sent) + ClientWire(Request(Now(), inc))
    {
      RequestWire(Now(), inc);
      Transmit(sock, [3, inc, 0, 0, 0, 0, width / 0x100, width % 0x100, height / 0x100, height % 0x100]);
    }

    /** Reads `len` octets of text and drops them. */
    method ServerCutTextParse(len: uint32) returns (ghost text: seq<byte>)
      requires Live() && sock.got + len <= |sock.stream|
      modifies sock
      ensures Live() && sock.got == old(sock.got) + len && sock.sent == old(sock.sent)
      ensures text == Slice(sock.stream, old(sock.got), sock.got)
    {
      var buf := Receive(sock, len);
      text := buf[..];
    }

    /** The first Server Display Configuration, answered with the client's: 800 by 480. */
    method TakeDisplay(info: seq<byte>)
      requires Live() && status == 0 && |info| <= DISPLAY_INFO_SIZE
      modifies `status, `displayInfo, sock`sent, sock`selectAt, sock`writeAt
      ensures Live() && status == 1 && displayInfo == Overwrite(old(displayInfo), 0, info)
      ensures sock.sent == old(sock.sent) + ClientWire(ClientExtension(CLIENT_DISPLAY, DISPLAY_REPLY))
    {
      DisplayWire();
      status := 1;
      displayInfo := Overwrite(displayInfo, 0, info);
      Transmit(sock, [128, 2, 0, 22] + ([1, 1, 0, 0] + [800 / 0x100, 800 % 0x100] + [480 / 0x100, 480 % 0x100]
                                        + [0, 0, 0, 0, 0, 0, 0, 1, 0, 0, 0, 0, 0, 1]));
    }

    /** The first Server Event Configuration: answered, followed by the pixel format and the opening request. */
    method TakeEvent(info: seq<byte>)
      requires Live() && status == 1 && |info| <= EVENT_INFO_SIZE
      modifies `status, `eventInfo, sock`sent, sock`selectAt, sock`writeAt
      ensures Live() && status == 2 && eventInfo == Overwrite(old(eventInfo), 0, info)
      ensures sock.sent == old(sock.sent) + ClientWire(ClientExtension(CLIENT_EVENT, EVENT_REPLY))
                           + ClientWire(SetPixelFormat(RGB565)) + ClientWire(Request(old(Now()), 0))
    {
      EventWire();
      Rgb565Wire();
      eventInfo := Overwrite(eventInfo, 0, info);
      Transmit(sock, [128, 4, 0, 28] + [0, 0, 0, 0, 0, 0, 0, 0, 0, 0, 0, 0, 0, 0, 0, 0, 0, 0, 0, 0, 0, 0, 0, 0, 0, 0, 1, 1]);
      status := 2;
      Transmit(sock, [0, 0, 0, 0, 16, 16, 1, 1, 0, 31, 0, 63, 0, 31, 11, 5, 0, 0, 0, 0]);
      RequestUpdate(0);
    }

    /** A MirrorLink extension message of a kind and length already read; false after a ByeBye. */
    method ExMessageParse(kind: byte, len: uint16) returns (more: bool, ghost m: ServerMessage)
      requires Live() && sock.got + len <= |sock.stream| && !Overruns(Now(), kind, len)
      modifies this, sock
      ensures m == Extension(kind, Slice(sock.stream, old(sock.got), old(sock.got) + len))
      ensures && Live() && sock.got == old(sock.got) + len && Now() == AfterMessage(old(Now()), m)
              && sock.sent == old(sock.sent) + ClientsWire(Replies(old(Now()), m))
              && more == !IsByeBye(m) && log == old(log) && painted == old(painted)
    {
      hide Slice, Overwrite, ClientWire, ClientsWire, Replies, Request;
      var buf := Receive(sock, len);
      ghost var s, sent := Now(), sock.sent;
      m := Extension(kind, buf[..]);
      more := true;
      match kind {
        case 0 =>
          Transmit(sock, [0x80, 0x00, 0x00, 0x00]);
          ByeByeReply(s, m);
          more := false;
        case 1 =>
          if status == 0 {
            TakeDisplay(buf[..]);
            DisplayReply(s, m);
          } else {
            NoReply(s, m, sent);
          }
        case 3 =>
          if status == 1 {
            TakeEvent(buf[..]);
            EventReply(s, m, sent);
          } else {
            NoReply(s, m, sent);
          }
        case _ => // the other kinds are read and dropped
          NoReply(s, m, sent);
      }
    }

    /** The rest of a FramebufferUpdate, after its type octet. */
    method TakeUpdate() returns (ghost m: ServerMessage)
      requires Live() && 0 < sock.got && sock.stream[sock.got - 1] == 0
      requires ParseMessage(Now(), sock.stream, sock.got - 1).Ok?
      modifies this, sock
      ensures Live() && old(ParseMessage(Now(), sock.stream, sock.got - 1)) == Ok(m, sock.got)
      ensures Now() == AfterMessage(old(Now()), m) && !IsByeBye(m) && log == old(log)
      ensures sock.sent == old(sock.sent) + ClientsWire(Replies(old(Now()), m))
      ensures painted == old(painted) + PaintsOfMessage(old(Now()), m)
    {
      hide Slice, Word16, Read16, ParseMessage, ParseRects, AfterRects, Replies, ClientsWire, PaintsOfRects,
           AfterMessage, IsByeBye, PaintsOfMessage;
      ghost var s, b, at := Now(), sock.stream, sock.got - 1;
      UpdateOnStream(s, b, at);
      var header := Receive(sock, 3);
      Word16OfSlice(b, at + 1, header[..], 1);
      OctetOfSlice(b, at + 1, header[..], 0);
      var num := Word16(header[1], header[2]);
      ghost var rects := FbUpdateParse(num);
      m := FramebufferUpdate(header[0], rects);
      RepliesToUpdate(s, m);
      UpdateIs(s, m);
    }

    /** The rest of a message that is read and dropped. */
    method TakeDropped(kind: byte) returns (ghost m: ServerMessage)
      requires Live() && 0 < sock.got && sock.stream[sock.got - 1] == kind && kind !in {0, 128}
      requires ParseMessage(Now(), sock.stream, sock.got - 1).Ok?
      modifies sock
      ensures Live() && old(ParseMessage(Now(), sock.stream, sock.got - 1)) == Ok(m, sock.got)
      ensures sock.sent == old(sock.sent) && !m.FramebufferUpdate? && !m.Extension?
    {
      hide Slice, Word16, Word32, Read16, Read32, ParseMessage;
      ghost var s, b, at := Now(), sock.stream, sock.got - 1;
      match kind {
        case 1 =>
          ColourMapOnStream(s, b, at);
          var header := Receive(sock, 6);
          Word16OfSlice(b, at + 1, header[..], 4);
          var num := Word16(header[4], header[5]);
          var dummy := Receive(sock, num * 6);
          m := SetColourMapEntries(header[..], dummy[..]);
        case 2 =>
          OtherOnStream(s, b, at);
          m := Bell;
        case 3 =>
          CutTextOnStream(s, b, at);
          var header := Receive(sock, 7);
          Word32OfSlice(b, at + 1, header[..], 3);
          GapOfHeader(b, at + 1, header[..]);
          var len := Word32(header[3], header[4], header[5], header[6]);
          ghost var text := ServerCutTextParse(len);
          m := ServerCutText(header[..3], text);
        case other =>
          OtherOnStream(s, b, at);
          m := OtherMessage(other, []);
      }
    }

    /** One turn of the message loop: takes in one message, whatever it is. */
    method DoWorks() returns (more: bool)
      requires Live() && ParseMessage(Now(), sock.stream, sock.got).Ok?
      modifies this, sock
      ensures var p := old(ParseMessage(Now(), sock.stream, sock.got));
              && Live() && sock.got == p.end && Now() == AfterMessage(old(Now()), p.value)
              && sock.sent == old(sock.sent) + ClientsWire(Replies(old(Now()), p.value))
              && log == old(log) + [p.value]
              && painted == old(painted) + PaintsOfMessage(old(Now()), p.value)
              && more == !IsByeBye(p.value)
    {
      hide Slice, Word16, Read16, ParseMessage, Replies, ClientsWire, AfterMessage, IsByeBye, PaintsOfMessage, Overruns;
      ghost var s, b, at, sent := Now(), sock.stream, sock.got, sock.sent;
      TypeOnStream(s, b, at);
      var msgType := Receive(sock, 1);
      OctetOfSlice(b, at, msgType[..], 0);
      more := true;
      ghost var m;
      match msgType[0] {
        case 0 =>
          m := TakeUpdate();
        case 128 =>
          ExtensionOnStream(s, b, at);
          var header := Receive(sock, 3);
          Word16OfSlice(b, at + 1, header[..], 1);
          OctetOfSlice(b, at + 1, header[..], 0);
          var len := Word16(header[1], header[2]);
          more, m := ExMessageParse(header[0], len);
          NoPaints(s, m, painted);
        case kind =>
          m := TakeDropped(kind);
          Uneventful(s, m, sent, painted);
      }
      log := log + [m];
    }

    // ----- the handshake and the loop -----

    /**
    After a refusal: reads a length and a reason and drops them.  The length is in host order,
    which is what decides how far it gets.
    */
    method DropReason()
      requires sock.Valid()
      modifies sock`got, sock`selectAt, sock`readAt, sock`trace
      ensures sock.Valid() && old(sock.got) <= sock.got
      ensures sock.QuietIn() && old(sock.got) + 4 <= |sock.stream| ==>
                var end := old(sock.got) + 4 + HostWord(Slice(sock.stream, old(sock.got), old(sock.got) + 4));
                end <= |sock.stream| ==> sock.got == end
    {
      hide HostWord, Overwrite;
      var word := new byte[4];
      ghost var mark := sock.got;
      if mark + 4 <= |sock.stream| {
        OverwriteAll(word[..], sock.stream[mark..mark + 4]);
        SliceIs(sock.stream, mark, mark + 4);
      }
      var _ := ConnRead(sock, word, 0, 4);
      var n := HostWord(word[..]);
      var buf := new byte[n];
      var _ := ConnRead(sock, buf, 0, n);
    }

    /** The minor version, 7 or 8; 0 if the server speaks neither. */
    method VersionHandshake() returns (version: byte)
      requires Live() && sock.got + 12 <= |sock.stream|
      modifies sock
      ensures Live() && sock.got == old(sock.got) + 12
      ensures var v := Slice(sock.stream, old(sock.got), old(sock.got) + 12);
              && version == (if v == VERSION_3_7 then 7 else if v == VERSION_3_8 then 8 else 0)
              && sock.sent == old(sock.sent) + if version == 0 then [] else v
    {
      hide Slice, Overwrite;
      var buf := Receive(sock, 12);
      if buf[..] != VERSION_3_7 && buf[..] != VERSION_3_8 {
        return 0;
      }
      version := buf[10] - 48;   // '0'
      Transmit(sock, buf[..]);
    }

    /** Whether the server offers security type None; if so it is chosen. */
    method SecurityHandshake() returns (chosen: bool)
      requires Live() && sock.got < |sock.stream|
      requires sock.got + 1 + sock.stream[sock.got] <= |sock.stream|
      modifies sock
      ensures Live()
      ensures var n := sock.stream[old(sock.got)];
              && chosen == (SECURITY_NONE in Slice(sock.stream, old(sock.got) + 1, old(sock.got) + 1 + n))
              && (chosen ==> sock.got == old(sock.got) + 1 + n)
              && sock.sent == old(sock.sent) + if chosen then [1] else []
    {
      ghost var b, at := sock.stream, sock.got;
      var num := Receive(sock, 1);
      OctetOfSlice(b, at, num[..], 0);
      if num[0] == 0 {
        DropReason();
        return false;
      }
      var buf := Receive(sock, num[0]);
      var flag := 0;
      var i: byte := 0;
      while i < num[0]
        invariant i <= num[0] && flag == if 1 in buf[..i] then 1 else 0
      {
        if buf[i] == 1 {
          flag := 1;
        }
        i := i + 1;
      }
      assert buf[..i] == buf[..];
      if flag != 0 {
        Transmit(sock, [flag]);
      }
      return flag != 0;
    }

    /**
    For version 3.8, whether the server reports success.  The word is in host order: the one
    failure of which a reason is read is not the failure of the standard.
    */
    method ResultHandshake() returns (success: bool)
      requires Live() && sock.got + 4 <= |sock.stream|
      modifies sock
      ensures Live() && sock.sent == old(sock.sent)
      ensures success == (Slice(sock.stream, old(sock.got), old(sock.got) + 4) == RESULT_OK)
      ensures success ==> sock.got == old(sock.got) + 4
    {
      hide Slice, HostWord;
      var word := Receive(sock, 4);
      var r := HostWord(word[..]);
      ResultWords(word[..]);
      if r == 1 {
        DropReason();
        return false;
      }
      return r == 0;
    }

    /** Everything of ServerInit before the name, into a new buffer. */
    method ReceiveInit() returns (buf: Buffer)
      requires Live() && sock.got + 24 <= |sock.stream|
      modifies sock
      ensures Live() && sock.got == old(sock.got) + 24 && sock.sent == old(sock.sent)
      ensures fresh(buf) && buf.Shaped() && buf.len == buf.size == 24
      ensures buf.buf != null && fresh(buf.buf) && buf.buf[..] == Slice(sock.stream, old(sock.got), sock.got)
    {
      hide Slice, Overwrite;
      buf := new Buffer.Init(24);
      ghost var mark := sock.got;
      OverwriteAll(buf.buf[..], sock.stream[mark..mark + 24]);
      var _ := ConnRead(sock, buf.buf, 0, 24);
      buf.len := buf.len + 24;
      SliceIs(sock.stream, mark, sock.got);
    }

    /** The name, behind the rest of ServerInit in a buffer that has to be reallocated for it. */
    method ReceiveName(buf: Buffer, len: uint32)
      requires Live() && sock.got + len <= |sock.stream| && len < 0x8000_0000
      requires buf.Shaped() && buf.len == buf.size == 24 && buf.buf != null
      modifies sock, buf, buf.buf
      ensures Live() && sock.got == old(sock.got) + len && sock.sent == old(sock.sent)
      ensures buf.buf != null && 24 <= buf.buf.Length
      ensures forall k | 0 <= k < 4 :: buf.buf[k] == old(buf.buf[k])
    {
      hide Overwrite;
      ghost var init := buf.buf[..];
      assert buf.Content() == init;
      buf.Append(len);
      ghost var grown, mark := buf.buf[..], sock.got;
      HeadKept(grown, init);
      var _ := ConnRead(sock, buf.buf, 24, len);
      OverwriteHead(grown, sock.stream[mark..sock.got]);
      assert forall k | 0 <= k < 4 :: buf.buf[..][k] == init[k];
    }

    /** ClientInit, and ServerInit through a buffer that is reallocated before the size is taken from it. */
    method Initialise(ghost version: seq<byte>)
      requires Live() && ParseInit(version, sock.stream, sock.got).Welcome?
      modifies this`width, this`height, sock
      ensures var g := old(ParseInit(version, sock.stream, sock.got));
              && Live() && width == g.width && height == g.height && sock.got == g.end
              && sock.sent == old(sock.sent) + [0]
    {
      hide Slice, Word16, Read16, Word32, Read32, ParseInit;
      ghost var b, at := sock.stream, sock.got;
      WelcomeFields(version, b, at);
      Transmit(sock, [0]);
      var buf := ReceiveInit();
      InitRead(b, at, buf.buf[..]);
      var len := Word32(buf.buf[20], buf.buf[21], buf.buf[22], buf.buf[23]);
      ReceiveName(buf, len);
      width := Word16(buf.buf[0], buf.buf[1]);
      height := Word16(buf.buf[2], buf.buf[3]);
      buf.Clear();
    }

    /** SetEncodings, with the run-length encoding first. */
    method SendEncodings()
      requires Live()
      modifies sock`sent, sock`selectAt, sock`writeAt
      ensures Live() && sock.sent == old(sock.sent) + ClientWire(ENCODINGS)
    {
      EncodingsWireIs();
      Transmit(sock, [2, 0, 0, 5] + [0xff, 0xff, 0xfd, 0xf3] + [0x00, 0x00, 0x00, 0x00] + [0xff, 0xff, 0xfd, 0xf5]
                     + [0xff, 0xff, 0xfd, 0xf4] + [0xff, 0xff, 0xff, 0x21]);
    }

    /** The handshake: whether it leads to the message loop. */
    method Handshake() returns (welcome: bool)
      requires Live() && !ParseHello(sock.stream, sock.got).Incomplete?
      modifies this`width, this`height, sock
      ensures match old(ParseHello(sock.stream, sock.got))
              case Welcome(w, h, end, written) =>
                Live() && welcome && width == w && height == h && sock.got == end && sock.sent == old(sock.sent) + written
              case Refused(written) =>
                Live() && !welcome && width == old(width) && height == old(height) && sock.sent == old(sock.sent) + written
              case Incomplete => true
    {
      hide Slice, VERSION_3_7, VERSION_3_8, RESULT_OK, ENCODINGS, ClientWire, HostWord, ParseHello, ParseResult, ParseInit;
      ghost var b, at, sent := sock.stream, sock.got, sock.sent;
      HelloOnStream(b, at);
      ghost var v := Slice(b, at, at + 12);
      var version := VersionHandshake();
      VersionsDiffer();
      if version == 0 {
        return false;
      }
      var chosen := SecurityHandshake();
      if !chosen {
        return false;
      }
      ResultOnStream(v, b, sock.got);
      if version == 8 {
        var success := ResultHandshake();
        if !success {
          return false;
        }
      }
      InitGreeting(v, b, sock.got);
      Initialise(v);
      SendEncodings();
      return true;
    }

    /**
    `vnc_session_task`, up to any moment of its message loop: the handshake and `turns` turns
    of the loop.  Everything it leaves behind is a function of the stream: how the transport
    cut it up, and how often it interrupted, does not show.
    */
    method Task(turns: nat)
      requires Live() && log == [] && painted == []
      requires !ParseHello(sock.stream, sock.got).Incomplete?
      requires var g := ParseHello(sock.stream, sock.got);
               g.Welcome? ==> g.end <= |sock.stream|
                              && ParseFirst(State(0, g.width, g.height, displayInfo, eventInfo), sock.stream, g.end, turns).Ok?
      modifies this, sock
      ensures match old(ParseHello(sock.stream, sock.got))
              case Welcome(w, h, end, written) =>
                var s := State(0, w, h, old(displayInfo), old(eventInfo));
                var p := ParseFirst(s, sock.stream, end, turns);
                && log == p.value && sock.got == p.end && Now() == AfterMessages(s, p.value)
                && sock.sent == old(sock.sent) + written + ClientsWire(AllReplies(s, p.value))
                && painted == PaintsOfMessages(s, p.value)
              case Refused(written) => log == [] && painted == [] && sock.sent == old(sock.sent) + written
              case Incomplete => true
    {
      hide ParseHello, GreetingWire;
      ghost var g := ParseHello(sock.stream, sock.got);
      status := 0;
      var welcome := Handshake();
      if !welcome {
        return;
      }
      var _ := Loop(turns);
    }

    /** The message loop after `turns` turns, or at its end if a ByeBye ended it before. */
    method Loop(turns: nat) returns (more: bool)
      requires Live() && ParseFirst(Now(), sock.stream, sock.got, turns).Ok?
      modifies this, sock
      ensures var s := old(Now());
              var p := ParseFirst(s, sock.stream, old(sock.got), turns);
              && Live() && log == old(log) + p.value && sock.got == p.end && Now() == AfterMessages(s, p.value)
              && sock.sent == old(sock.sent) + ClientsWire(AllReplies(s, p.value))
              && painted == old(painted) + PaintsOfMessages(s, p.value)
              && more == !Ended(p.value)
    {
      hide ParseFirst, ParseMessage, AfterMessage, AfterMessages, ClientsWire, PaintsOfMessage, PaintsOfMessages,
           Replies, AllReplies, IsByeBye, Ended;
      ghost var s, sent, seen, calls := Now(), sock.sent, log, painted;
      ghost var p := ParseFirst(s, sock.stream, sock.got, turns);
      ghost var messages := p.value;
      var k := 0;
      NoMessages(s, messages, sent, calls);
      more := true;
      while more && k < turns
        invariant Live() && k <= turns && k <= |messages| && log == seen + messages[..k]
        invariant more == !Ended(messages[..k])
        invariant more ==> ParseFirst(Now(), sock.stream, sock.got, turns - k) == Ok(messages[k..], p.end)
        invariant !more ==> k == |messages| && sock.got == p.end
        invariant Now() == AfterMessages(s, messages[..k])
        invariant sock.sent == sent + ClientsWire(AllReplies(s, messages[..k]))
        invariant painted == calls + PaintsOfMessages(s, messages[..k])
        decreases turns - k
      {
        NextMessage(Now(), sock.stream, sock.got, messages, k, turns - k, p.end);
        OneMoreMessage(s, messages, k, sent, calls);
        more := DoWorks();
        k := k + 1;
      }
      NoTurnsLeft(Now(), sock.stream, sock.got, messages, k, turns - k, more, p.end);
    }
  }

  lemma NoMessages(s: State, messages: seq<ServerMessage>, sent: seq<byte>, calls: seq<Paint>)
    ensures messages[0..] == messages && messages[..0] == [] && !Ended([])
    ensures AfterMessages(s, []) == s
    ensures sent == sent + ClientsWire(AllReplies(s, [])) && calls == calls + PaintsOfMessages(s, [])
  {
  }

  lemma Appended<T>(before: seq<T>, x: seq<T>, y: seq<T>)
    ensures before + x + y == before + (x + y)
  {
  }

  lemma {:induction false} ClientsWireAppend(xs: seq<ClientMessage>, ys: seq<ClientMessage>)
    ensures ClientsWire(xs + ys) == ClientsWire(xs) + ClientsWire(ys)
  {
    hide ClientWire;
    if xs == [] {
      assert xs + ys == ys;
    } else {
      assert (xs + ys)[1..] == xs[1..] + ys;
      ClientsWireAppend(xs[1..], ys);
    }
  }

  lemma NextMessage(s: State, b: seq<byte>, at: nat, messages: seq<ServerMessage>, k: nat, turns: nat, end: nat)
    requires k <= |messages| && at <= |b| && 0 < turns && ParseFirst(s, b, at, turns) == Ok(messages[k..], end)
    ensures k < |messages| && var m := ParseMessage(s, b, at);
            && m.Ok? && m.value == messages[k]
            && if IsByeBye(m.value) then k + 1 == |messages| && m.end == end
               else ParseFirst(AfterMessage(s, m.value), b, m.end, turns - 1) == Ok(messages[k + 1..], end)
  {
    hide ParseMessage, AfterMessage, IsByeBye;
    var m := ParseMessage(s, b, at);
    if IsByeBye(m.value) {
      ConsEquals(m.value, [], messages[k..]);
      assert [m.value] + [] == [m.value];
    } else {
      var rest := ParseFirst(AfterMessage(s, m.value), b, m.end, turns - 1);
      ConsEquals(m.value, rest.value, messages[k..]);
      assert messages[k..][1..] == messages[k + 1..];
    }
  }

  lemma NoTurnsLeft(s: State, b: seq<byte>, at: nat, messages: seq<ServerMessage>, k: nat, turns: nat, more: bool, end: nat)
    requires k <= |messages| && at <= |b| && (!more ==> k == |messages| && at == end)
    requires more ==> turns == 0 && ParseFirst(s, b, at, turns) == Ok(messages[k..], end)
    ensures messages[..k] == messages && at == end
  {
  }

  lemma RunGrows(s: State, messages: seq<ServerMessage>, m: ServerMessage)
    ensures var t := AfterMessages(s, messages);
            && AfterMessages(s, messages + [m]) == AfterMessage(t, m)
            && AllReplies(s, messages + [m]) == AllReplies(s, messages) + Replies(t, m)
            && PaintsOfMessages(s, messages + [m]) == PaintsOfMessages(s, messages) + PaintsOfMessage(t, m)
  {
    hide AfterMessage, Replies, PaintsOfMessage;
    var t := AfterMessages(s, messages);
    assert [m][1..] == [];
    AfterMessagesSplit(s, messages, [m]);
    AllRepliesSplit(s, messages, [m]);
    PaintsSplit(s, messages, [m]);
    assert AllReplies(t, [m]) == Replies(t, m) + [];
    assert PaintsOfMessages(t, [m]) == PaintsOfMessage(t, m) + [];
  }

  /** What one more message adds to everything the loop keeps. */
  lemma OneMoreMessage(s: State, messages: seq<ServerMessage>, k: nat, sent: seq<byte>, calls: seq<Paint>)
    requires k < |messages|
    ensures messages[..k + 1] == messages[..k] + [messages[k]]
    ensures Ended(messages[..k + 1]) == IsByeBye(messages[k])
    ensures var t := AfterMessages(s, messages[..k]);
            && AfterMessages(s, messages[..k + 1]) == AfterMessage(t, messages[k])
            && sent + ClientsWire(AllReplies(s, messages[..k + 1])) ==
               sent + ClientsWire(AllReplies(s, messages[..k])) + ClientsWire(Replies(t, messages[k]))
            && calls + PaintsOfMessages(s, messages[..k + 1]) ==
               calls + PaintsOfMessages(s, messages[..k]) + PaintsOfMessage(t, messages[k])
  {
    hide AfterMessage, AfterMessages, Replies, AllReplies, PaintsOfMessage, PaintsOfMessages, ClientsWire, IsByeBye;
    var m, t := messages[k], AfterMessages(s, messages[..k]);
    assert messages[..k + 1] == messages[..k] + [m];
    assert messages[..k + 1][k] == m;
    RunGrows(s, messages[..k], m);
    ClientsWireAppend(AllReplies(s, messages[..k]), Replies(t, m));
    Appended(sent, ClientsWire(AllReplies(s, messages[..k])), ClientsWire(Replies(t, m)));
    Appended(calls, PaintsOfMessages(s, messages[..k]), PaintsOfMessage(t, m));
  }

  lemma {:induction false} PaintsSplit(s: State, xs: seq<ServerMessage>, ys: seq<ServerMessage>)
    ensures PaintsOfMessages(s, xs + ys) == PaintsOfMessages(s, xs) + PaintsOfMessages(AfterMessages(s, xs), ys)
    decreases |xs|
  {
    hide AfterMessage, PaintsOfMessage;
    if xs == [] {
      assert xs + ys == ys;
    } else {
      assert (xs + ys)[1..] == xs[1..] + ys;
      PaintsSplit(AfterMessage(s, xs[0]), xs[1..], ys);
    }
  }

  lemma SliceIs(b: seq<byte>, lo: nat, hi: nat)
    requires lo <= hi <= |b|
    ensures Slice(b, lo, hi) == b[lo..hi]
  {
  }

  lemma HeadKept(memory: seq<byte>, init: seq<byte>)
    requires |init| == 24 <= |memory| && memory[..24] == init
    ensures forall k | 0 <= k < 4 :: memory[k] == init[k]
  {
  }

  lemma OverwriteHead(base: seq<byte>, part: seq<byte>)
    requires 24 + |part| <= |base|
    ensures forall k | 0 <= k < 4 :: Overwrite(base, 24, part)[k] == base[k]
  {
    OverwriteBelow(base, 24, part);
  }

  lemma InitRead(b: seq<byte>, at: nat, init: seq<byte>)
    requires |init| == 24 && at + 24 <= |b| && init == Slice(b, at, at + 24)
    ensures Word16(init[0], init[1]) == Read16(b, at) && Word16(init[2], init[3]) == Read16(b, at + 2)
    ensures Word32(init[20], init[21], init[22], init[23]) == Read32(b, at + 20)
  {
    Word16OfSlice(b, at, init, 0);
    Word16OfSlice(b, at, init, 2);
    Word32OfSlice(b, at, init, 20);
  }

  lemma WelcomeFields(version: seq<byte>, b: seq<byte>, at: nat)
    requires at <= |b| && ParseInit(version, b, at).Welcome?
    ensures at + 24 <= |b| && var g := ParseInit(version, b, at);
            && g.width == Read16(b, at) && g.height == Read16(b, at + 2)
            && g.end == at + 24 + Read32(b, at + 20) <= |b| && Read32(b, at + 20) < 0x8000_0000
  {
    hide Read16, Read32;
  }

  lemma HelloOnStream(b: seq<byte>, at: nat)
    requires at <= |b| && !ParseHello(b, at).Incomplete?
    ensures at + 12 <= |b| && var v := Slice(b, at, at + 12);
            if v != VERSION_3_7 && v != VERSION_3_8 then ParseHello(b, at) == Refused([])
            else
              && at + 13 + b[at + 12] <= |b|
              && var end := at + 13 + b[at + 12];
                 ParseHello(b, at) == if SECURITY_NONE in Slice(b, at + 13, end) then ParseResult(v, b, end) else Refused(v)
  {
    hide VERSION_3_7, VERSION_3_8, ParseResult;
  }

  lemma ResultOnStream(version: seq<byte>, b: seq<byte>, at: nat)
    requires at <= |b| && !ParseResult(version, b, at).Incomplete?
    ensures if version != VERSION_3_8 then ParseResult(version, b, at) == ParseInit(version, b, at)
            else
              && at + 4 <= |b|
              && ParseResult(version, b, at) ==
                 if Slice(b, at, at + 4) == RESULT_OK then ParseInit(version, b, at + 4) else Refused(version + [1])
  {
    hide VERSION_3_8, RESULT_OK, ParseInit, Slice;
  }

  lemma InitGreeting(version: seq<byte>, b: seq<byte>, at: nat)
    requires at <= |b|
    ensures var g := ParseInit(version, b, at); !g.Refused? && (g.Welcome? ==> g.written == GreetingWire(version))
  {
    hide GreetingWire;
  }

  lemma VersionsDiffer()
    ensures VERSION_3_7 != VERSION_3_8
  {
    assert VERSION_3_7[10] != VERSION_3_8[10];
  }

  lemma EncodingWords()
    ensures I32(-525) == [0xff, 0xff, 0xfd, 0xf3] && I32(0) == [0, 0, 0, 0]
    ensures I32(-523) == [0xff, 0xff, 0xfd, 0xf5] && I32(-524) == [0xff, 0xff, 0xfd, 0xf4]
    ensures I32(-223) == [0xff, 0xff, 0xff, 0x21]
  {
  }

  /** Words chained as an encoder chains them, and side by side. */
  lemma FiveWords(head: seq<byte>, a: seq<byte>, b: seq<byte>, c: seq<byte>, d: seq<byte>, e: seq<byte>)
    ensures head + (a + (b + (c + (d + (e + []))))) == head + a + b + c + d + e
  {
  }

  lemma EncodingsWireIs()
    ensures ClientWire(ENCODINGS) ==
            [2, 0, 0, 5] + [0xff, 0xff, 0xfd, 0xf3] + [0x00, 0x00, 0x00, 0x00] + [0xff, 0xff, 0xfd, 0xf5]
            + [0xff, 0xff, 0xfd, 0xf4] + [0xff, 0xff, 0xff, 0x21]
  {
    hide I32;
    EncodingWords();
    var e := ENCODINGS.encodings;
    assert e[1..] == [0, -523, -524, -223] && e[1..][1..] == [-523, -524, -223];
    assert e[1..][1..][1..] == [-524, -223] && e[1..][1..][1..][1..] == [-223];
    assert EncodingsWire([-223]) == I32(-223) + [];
    assert EncodingsWire([-524, -223]) == I32(-524) + EncodingsWire([-223]);
    assert EncodingsWire([-523, -524, -223]) == I32(-523) + EncodingsWire([-524, -223]);
    assert EncodingsWire([0, -523, -524, -223]) == I32(0) + EncodingsWire([-523, -524, -223]);
    assert [2, 0] + U16(5) == [2, 0, 0, 5];
    FiveWords([2, 0, 0, 5], I32(-525), I32(0), I32(-523), I32(-524), I32(-223));
  }

  function UpdateReply(s: State, rects: seq<Rect>): seq<byte> {
    ClientsWire(Replies(s, FramebufferUpdate(0, rects)))
  }

  lemma OneReply(c: ClientMessage)
    ensures ClientsWire([c]) == ClientWire(c)
  {
    hide ClientWire;
    assert [c][1..] == [] && ClientWire(c) + [] == ClientWire(c);
  }

  lemma RequestWire(s: State, incremental: byte)
    ensures ClientWire(Request(s, incremental)) ==
            [3, incremental, 0, 0, 0, 0, s.width / 0x100, s.width % 0x100, s.height / 0x100, s.height % 0x100]
  {
    assert U16(0) == [0, 0];
    assert s.width / 0x100 % 0x100 == s.width / 0x100 && s.height / 0x100 % 0x100 == s.height / 0x100;
  }

  /** The padding octet of an update plays no part. */
  lemma RepliesToUpdate(s: State, m: ServerMessage)
    requires m.FramebufferUpdate?
    ensures ClientsWire(Replies(s, m)) == UpdateReply(s, m.rects)
  {
    hide AfterRects, ClientsWire;
  }

  /** Messages that are read and dropped. */
  lemma Uneventful(s: State, m: ServerMessage, sent: seq<byte>, calls: seq<Paint>)
    requires !m.FramebufferUpdate? && !m.Extension?
    ensures AfterMessage(s, m) == s && !IsByeBye(m)
    ensures sent == sent + ClientsWire(Replies(s, m)) && calls == calls + PaintsOfMessage(s, m)
  {
  }

  lemma UpdateIs(s: State, m: ServerMessage)
    requires m.FramebufferUpdate?
    ensures AfterMessage(s, m) == AfterRects(s, m.rects) && !IsByeBye(m)
    ensures PaintsOfMessage(s, m) == PaintsOfRects(s, m.rects)
  {
  }

  lemma NoPaints(s: State, m: ServerMessage, calls: seq<Paint>)
    requires !m.FramebufferUpdate?
    ensures calls == calls + PaintsOfMessage(s, m)
  {
  }

  lemma NoReply(s: State, m: ServerMessage, sent: seq<byte>)
    requires !m.FramebufferUpdate? && !IsByeBye(m) && !TakesDisplay(s, m) && !TakesEvent(s, m)
    ensures sent == sent + ClientsWire(Replies(s, m))
  {
  }

  lemma ByeByeReply(s: State, m: ServerMessage)
    requires IsByeBye(m)
    ensures ClientsWire(Replies(s, m)) == [0x80, 0, 0, 0]
  {
    OneReply(ClientExtension(BYE_BYE, []));
    assert U16(0) == [0, 0];
  }

  lemma DisplayReply(s: State, m: ServerMessage)
    requires TakesDisplay(s, m)
    ensures ClientsWire(Replies(s, m)) == ClientWire(ClientExtension(CLIENT_DISPLAY, DISPLAY_REPLY))
  {
    hide ClientWire;
    OneReply(ClientExtension(CLIENT_DISPLAY, DISPLAY_REPLY));
  }

  lemma DisplayWire()
    ensures ClientWire(ClientExtension(CLIENT_DISPLAY, DISPLAY_REPLY)) ==
            [128, 2, 0, 22] + ([1, 1, 0, 0] + [800 / 0x100, 800 % 0x100] + [480 / 0x100, 480 % 0x100]
                               + [0, 0, 0, 0, 0, 0, 0, 1, 0, 0, 0, 0, 0, 1])
  {
    assert U16(800) == [800 / 0x100, 800 % 0x100] && U16(480) == [480 / 0x100, 480 % 0x100];
    assert [128, 2] + U16(22) == [128, 2, 0, 22];
  }

  lemma EventWire()
    ensures ClientWire(ClientExtension(CLIENT_EVENT, EVENT_REPLY)) ==
            [128, 4, 0, 28] + [0, 0, 0, 0, 0, 0, 0, 0, 0, 0, 0, 0, 0, 0, 0, 0, 0, 0, 0, 0, 0, 0, 0, 0, 0, 0, 1, 1]
  {
    assert [128, 4] + U16(28) == [128, 4, 0, 28];
  }

  lemma Rgb565Wire()
    ensures ClientWire(SetPixelFormat(RGB565)) == [0, 0, 0, 0, 16, 16, 1, 1, 0, 31, 0, 63, 0, 31, 11, 5, 0, 0, 0, 0]
  {
  }

  lemma EventReply(s: State, m: ServerMessage, sent: seq<byte>)
    requires TakesEvent(s, m)
    ensures sent + ClientsWire(Replies(s, m)) ==
            sent + ClientWire(ClientExtension(CLIENT_EVENT, EVENT_REPLY)) + ClientWire(SetPixelFormat(RGB565))
            + ClientWire(Request(s, 0))
  {
    hide ClientWire, Request;
    var a, b, c := ClientExtension(CLIENT_EVENT, EVENT_REPLY), SetPixelFormat(RGB565), Request(s, 0);
    assert [a, b, c][1..] == [b, c] && [b, c][1..] == [c];
    OneReply(c);
    assert ClientsWire([a, b, c]) == ClientWire(a) + (ClientWire(b) + ClientWire(c));
  }

  lemma UpdateReplyIs(s: State, rects: seq<Rect>, fbUpdate: int, inc: byte)
    requires fbUpdate == if Answered(FramebufferUpdate(0, rects)) then 1 else 0
    requires inc == if Resizes(FramebufferUpdate(0, rects)) then 0 else 1
    ensures UpdateReply(s, rects) == if fbUpdate != 0 then ClientWire(Request(AfterRects(s, rects), inc)) else []
  {
    hide ClientWire, AfterRects, Request, Answered, Resizes;
    if fbUpdate != 0 {
      OneReply(Request(AfterRects(s, rects), inc));
    }
  }

  lemma NoRects(s: State, rects: seq<Rect>)
    ensures rects[0..] == rects && rects[..0] == []
    ensures AfterRects(s, []) == s && PaintsOfRects(s, []) == []
    ensures !Answered(FramebufferUpdate(0, [])) && !Resizes(FramebufferUpdate(0, []))
  {
  }

  lemma NextRect(s: State, b: seq<byte>, at: nat, n: nat, rects: seq<Rect>, i: nat, end: nat)
    requires 0 < n && i <= |rects| && at <= |b| && ParseRects(s, b, at, n) == Ok(rects[i..], end)
    ensures i < |rects| && rects[..i + 1] == rects[..i] + [rects[i]] && var r := ParseRect(s, b, at);
            && r.Ok? && r.value == rects[i]
            && ParseRects(AfterRect(s, rects[i]), b, r.end, n - 1) == Ok(rects[i + 1..], end)
  {
    hide ParseRect, AfterRect;
    var r := ParseRect(s, b, at);
    var rest := ParseRects(AfterRect(s, r.value), b, r.end, n - 1);
    ConsEquals(r.value, rest.value, rects[i..]);
    assert rects[i..][1..] == rects[i + 1..];
  }

  lemma OneMoreRect(s: State, rects: seq<Rect>, i: nat)
    requires i < |rects|
    ensures AfterRects(s, rects[..i + 1]) == AfterRect(AfterRects(s, rects[..i]), rects[i])
    ensures PaintsOfRects(s, rects[..i + 1]) == PaintsOfRects(s, rects[..i]) + PaintsOfRect(AfterRects(s, rects[..i]), rects[i])
    ensures Answered(FramebufferUpdate(0, rects[..i + 1])) <==>
            Answered(FramebufferUpdate(0, rects[..i])) || Refreshes(rects[i])
    ensures Resizes(FramebufferUpdate(0, rects[..i + 1])) <==>
            Resizes(FramebufferUpdate(0, rects[..i])) || rects[i].DesktopSize?
  {
    hide AfterRect, PaintsOfRect, Refreshes;
    assert rects[..i + 1] == rects[..i] + [rects[i]];
    AfterRectsOneMore(s, rects[..i], rects[i]);
    PaintsOneMore(s, rects[..i], rects[i]);
    assert rects[i] in rects[..i + 1];
  }

  lemma AllRectsRead(s: State, b: seq<byte>, at: nat, rects: seq<Rect>)
    requires at <= |b|
    ensures ParseRects(s, b, at, 0) == Ok([], at) && rects[..|rects|] == rects
  {
  }

  lemma GapOfHeader(b: seq<byte>, at: nat, part: seq<byte>)
    requires |part| == 7 && at + 7 <= |b| && part == Slice(b, at, at + 7)
    ensures part[..3] == Slice(b, at, at + 3)
  {
  }

  lemma RowMoves(rows: seq<seq<byte>>, row: seq<byte>, rest: seq<seq<byte>>)
    ensures rows + ([row] + rest) == (rows + [row]) + rest
  {
  }

  lemma NoRowsLeft(b: seq<byte>, at: nat, rows: seq<seq<byte>>)
    requires at <= |b|
    ensures ParseRows(b, at, 0) == Ok([], at) && rows + [] == rows
  {
  }

  lemma OctetOfSlice(b: seq<byte>, at: nat, part: seq<byte>, k: nat)
    requires k < |part| && at + |part| <= |b| && part == Slice(b, at, at + |part|)
    ensures part[k] == b[at + k]
  {
  }

  lemma RawSizeIs(a: Area)
    ensures RawSize(a) == a.width * a.height * 2
  {
  }

  lemma HeadOfSlice(b: seq<byte>, at: nat, part: seq<byte>)
    requires |part| == 12 && at + 12 <= |b| && part == Slice(b, at, at + 12)
    ensures ParseArea(b, at) == Area(Word16(part[0], part[1]), Word16(part[2], part[3]),
                                     Word16(part[4], part[5]), Word16(part[6], part[7]))
    ensures ParseEncoding(b, at + 8) == Signed(Word32(part[8], part[9], part[10], part[11]))
  {
    hide Slice, Word16, Word32, Read16, Read32;
    Word16OfSlice(b, at, part, 0);
    Word16OfSlice(b, at, part, 2);
    Word16OfSlice(b, at, part, 4);
    Word16OfSlice(b, at, part, 6);
    Word32OfSlice(b, at, part, 8);
  }
}
