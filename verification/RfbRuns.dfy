/**
Safety over whole runs: request counting, the size and kind of every request, the order of
the configuration messages, and what the raw handler is given.  A run is any sequence of
server messages, so every statement holds at every point of every session.
*/
module RfbRuns {
  import opened Bytes
  import opened RfbWire
  import opened RfbParse
  import opened RfbClient

  // ----- runs compose -----

  lemma {:induction false} AfterMessagesSplit(s: State, xs: seq<ServerMessage>, ys: seq<ServerMessage>)
    ensures AfterMessages(s, xs + ys) == AfterMessages(AfterMessages(s, xs), ys)
    decreases |xs|
  {
    hide AfterMessage;
    if xs == [] {
      assert xs + ys == ys;
    } else {
      assert (xs + ys)[1..] == xs[1..] + ys;
      AfterMessagesSplit(AfterMessage(s, xs[0]), xs[1..], ys);
    }
  }

  lemma {:induction false} AllRepliesSplit(s: State, xs: seq<ServerMessage>, ys: seq<ServerMessage>)
    ensures AllReplies(s, xs + ys) == AllReplies(s, xs) + AllReplies(AfterMessages(s, xs), ys)
    decreases |xs|
  {
    hide AfterMessage, Replies;
    if xs == [] {
      assert xs + ys == ys;
    } else {
      assert (xs + ys)[1..] == xs[1..] + ys;
      AllRepliesSplit(AfterMessage(s, xs[0]), xs[1..], ys);
    }
  }

  // ----- closed-loop flow control -----

  function CountRequests(cs: seq<ClientMessage>): nat {
    if cs == [] then 0 else (if cs[0].UpdateRequest? then 1 else 0) + CountRequests(cs[1..])
  }

  function CountAnswered(messages: seq<ServerMessage>): nat {
    if messages == [] then 0 else (if Answered(messages[0]) then 1 else 0) + CountAnswered(messages[1..])
  }

  lemma {:induction false} CountRequestsAppend(xs: seq<ClientMessage>, ys: seq<ClientMessage>)
    ensures CountRequests(xs + ys) == CountRequests(xs) + CountRequests(ys)
  {
    if xs == [] {
      assert xs + ys == ys;
    } else {
      assert (xs + ys)[1..] == xs[1..] + ys;
      CountRequestsAppend(xs[1..], ys);
    }
  }

  lemma {:induction false} CountAnsweredAppend(xs: seq<ServerMessage>, ys: seq<ServerMessage>)
    ensures CountAnswered(xs + ys) == CountAnswered(xs) + CountAnswered(ys)
  {
    hide Answered;
    if xs == [] {
      assert xs + ys == ys;
    } else {
      assert (xs + ys)[1..] == xs[1..] + ys;
      CountAnsweredAppend(xs[1..], ys);
    }
  }

  lemma AfterRectsKeeps(s: State, rects: seq<Rect>)
    ensures var t := AfterRects(s, rects); t == s.(width := t.width, height := t.height)
    decreases |rects|
  {
    if rects != [] {
      AfterRectsKeeps(AfterRect(s, rects[0]), rects[1..]);
    }
  }

  /** One message: a request for every update that refreshes anything, and one more on entering status 2. */
  lemma RequestsOfMessage(s: State, m: ServerMessage)
    requires s.status <= 2
    ensures s.status <= AfterMessage(s, m).status <= 2
    ensures CountRequests(Replies(s, m)) ==
            (if Answered(m) then 1 else 0) + (if s.status < 2 && AfterMessage(s, m).status == 2 then 1 else 0)
  {
    if m.FramebufferUpdate? {
      AfterRectsKeeps(s, m.rects);
    }
    var replies := Replies(s, m);
    if TakesEvent(s, m) && !Answered(m) && !IsByeBye(m) {
      assert replies[1..][1..] == [Request(s, 0)] && replies[1..][1..][1..] == [];
      assert CountRequests(replies[1..][1..]) == 1;
    } else if replies != [] {
      assert replies[1..] == [];
    }
  }

  /** The status never decreases, and in every run requests and answered updates stay in step. */
  lemma {:induction false} FlowControl(s: State, messages: seq<ServerMessage>)
    requires s.status <= 2
    ensures s.status <= AfterMessages(s, messages).status <= 2
    ensures CountRequests(AllReplies(s, messages)) ==
            CountAnswered(messages) + (if s.status < 2 && AfterMessages(s, messages).status == 2 then 1 else 0)
    decreases |messages|
  {
    hide AfterMessage, Replies, Answered;
    if messages == [] {
    } else {
      var m, t := messages[0], AfterMessage(s, messages[0]);
      RequestsOfMessage(s, m);
      FlowControl(t, messages[1..]);
      CountRequestsAppend(Replies(s, m), AllReplies(t, messages[1..]));
    }
  }

  // ----- the size and kind of every request -----

  function AllRects(messages: seq<ServerMessage>): seq<Rect> {
    if messages == [] then []
    else (if messages[0].FramebufferUpdate? then messages[0].rects else []) + AllRects(messages[1..])
  }

  /** The size given by the latest DesktopSize rectangle, else the initial one. */
  function LatestSize(initial: (uint16, uint16), rects: seq<Rect>): (uint16, uint16) {
    if rects == [] then initial
    else
      var last := rects[|rects| - 1];
      if last.DesktopSize? then (last.area.width, last.area.height) else LatestSize(initial, rects[..|rects| - 1])
  }

  lemma {:induction false} LatestSizeAppend(initial: (uint16, uint16), xs: seq<Rect>, ys: seq<Rect>)
    ensures LatestSize(initial, xs + ys) == LatestSize(LatestSize(initial, xs), ys)
    decreases |ys|
  {
    if ys == [] {
      assert xs + ys == xs;
    } else {
      var n := |ys| - 1;
      assert (xs + ys)[..|xs + ys| - 1] == xs + ys[..n];
      LatestSizeAppend(initial, xs, ys[..n]);
    }
  }

  lemma {:induction false} AfterRectsSize(s: State, rects: seq<Rect>)
    ensures var t := AfterRects(s, rects); (t.width, t.height) == LatestSize((s.width, s.height), rects)
    decreases |rects|
  {
    if rects == [] {
    } else {
      var t := AfterRect(s, rects[0]);
      AfterRectsSize(t, rects[1..]);
      assert rects == [rects[0]] + rects[1..];
      LatestSizeAppend((s.width, s.height), [rects[0]], rects[1..]);
      assert [rects[0]][..0] == [];
    }
  }

  lemma AfterMessageSize(s: State, m: ServerMessage)
    ensures var t := AfterMessage(s, m); (t.width, t.height) == LatestSize((s.width, s.height), AllRects([m]))
  {
    assert [m][1..] == [];
    if m.FramebufferUpdate? {
      AfterRectsSize(s, m.rects);
      assert m.rects + [] == m.rects;
    }
  }

  lemma {:induction false} AllRectsAppend(xs: seq<ServerMessage>, ys: seq<ServerMessage>)
    ensures AllRects(xs + ys) == AllRects(xs) + AllRects(ys)
  {
    if xs == [] {
      assert xs + ys == ys;
    } else {
      assert (xs + ys)[1..] == xs[1..] + ys;
      AllRectsAppend(xs[1..], ys);
    }
  }

  /** The size the session holds is the latest one the server gave, however the rectangles were grouped. */
  lemma {:induction false} SizeIsLatest(s: State, messages: seq<ServerMessage>)
    ensures var t := AfterMessages(s, messages);
            (t.width, t.height) == LatestSize((s.width, s.height), AllRects(messages))
    decreases |messages|
  {
    hide AfterMessage;
    if messages == [] {
    } else {
      AfterMessageSize(s, messages[0]);
      SizeIsLatest(AfterMessage(s, messages[0]), messages[1..]);
      assert messages == [messages[0]] + messages[1..];
      AllRectsAppend([messages[0]], messages[1..]);
      LatestSizeAppend((s.width, s.height), AllRects([messages[0]]), AllRects(messages[1..]));
    }
  }

  /**
  Every request of every run asks for the whole desktop at its latest size, and is
  non-incremental iff it is the opening request or answers an update that resizes.
  */
  lemma EveryRequest(s: State, messages: seq<ServerMessage>, k: nat, c: ClientMessage)
    requires k < |messages|
    requires c.UpdateRequest? && c in Replies(AfterMessages(s, messages[..k]), messages[k])
    ensures c.x == 0 && c.y == 0
    ensures (c.width, c.height) == LatestSize((s.width, s.height), AllRects(messages[..k + 1]))
    ensures c.incremental == if Answered(messages[k]) && !Resizes(messages[k]) then 1 else 0
    ensures !Answered(messages[k]) ==> TakesEvent(AfterMessages(s, messages[..k]), messages[k])
  {
    var before, m := AfterMessages(s, messages[..k]), messages[k];
    assert messages[..k + 1] == messages[..k] + [m];
    AfterMessagesSplit(s, messages[..k], [m]);
    assert AfterMessages(before, [m]) == AfterMessage(before, m) by {
      assert [m][1..] == [];
    }
    SizeIsLatest(s, messages[..k + 1]);
  }

  // ----- the order of the configuration messages -----

  predicate Configures(c: ClientMessage) {
    c.SetPixelFormat? || (c.ClientExtension? && c.kind in {CLIENT_DISPLAY, CLIENT_EVENT})
  }

  function ConfigurationIn(c: ClientMessage): seq<ClientMessage> {
    if Configures(c) then [c] else []
  }

  function Configurations(cs: seq<ClientMessage>): seq<ClientMessage> {
    if cs == [] then [] else ConfigurationIn(cs[0]) + Configurations(cs[1..])
  }

  /** What has been configured once the session has a given status. */
  function Configured(status: nat): seq<ClientMessage> {
    if status == 0 then []
    else if status == 1 then [ClientExtension(CLIENT_DISPLAY, DISPLAY_REPLY)]
    else [ClientExtension(CLIENT_DISPLAY, DISPLAY_REPLY), ClientExtension(CLIENT_EVENT, EVENT_REPLY), SetPixelFormat(RGB565)]
  }

  lemma {:induction false} ConfigurationsAppend(xs: seq<ClientMessage>, ys: seq<ClientMessage>)
    ensures Configurations(xs + ys) == Configurations(xs) + Configurations(ys)
  {
    hide ConfigurationIn;
    if xs == [] {
      assert xs + ys == ys;
    } else {
      assert (xs + ys)[1..] == xs[1..] + ys;
      ConfigurationsAppend(xs[1..], ys);
    }
  }

  lemma ConfigurationsOfMessage(s: State, m: ServerMessage)
    requires s.status <= 2
    ensures Configured(s.status) + Configurations(Replies(s, m)) == Configured(AfterMessage(s, m).status)
  {
    hide DISPLAY_REPLY, EVENT_REPLY;
    if m.FramebufferUpdate? {
      AfterRectsKeeps(s, m.rects);
    }
    var replies := Replies(s, m);
    if TakesEvent(s, m) && !Answered(m) && !IsByeBye(m) {
      var event, format, request := replies[0], replies[1], replies[2];
      assert replies == [event, format, request];
      assert replies[1..] == [format, request] && [format, request][1..] == [request] && [request][1..] == [];
      assert Configurations([request]) == [];
      assert Configurations([format, request]) == [format];
      assert Configurations(replies) == [event, format];
    } else if replies != [] {
      assert replies[1..] == [];
    }
  }

  /**
  In every run the configuration messages sent so far are a prefix of one fixed order, each at
  most once, and the status says how long a prefix.
  */
  lemma {:induction false} ConfigurationOrder(s: State, messages: seq<ServerMessage>)
    requires s.status <= 2
    ensures Configured(s.status) + Configurations(AllReplies(s, messages)) == Configured(AfterMessages(s, messages).status)
    decreases |messages|
  {
    hide AfterMessage, Replies, Configured;
    if messages == [] {
    } else {
      var m, t := messages[0], AfterMessage(s, messages[0]);
      RequestsOfMessage(s, m);
      ConfigurationsOfMessage(s, m);
      ConfigurationOrder(t, messages[1..]);
      ConfigurationsAppend(Replies(s, m), AllReplies(t, messages[1..]));
    }
  }

  lemma {:induction false} RepliesFit(s: State, messages: seq<ServerMessage>)
    ensures ClientsFit(AllReplies(s, messages))
    decreases |messages|
  {
    hide AfterMessage;
    if messages == [] {
    } else {
      RepliesFit(AfterMessage(s, messages[0]), messages[1..]);
      assert ClientsFit(Replies(s, messages[0])) by {
        var replies := Replies(s, messages[0]);
        if 3 <= |replies| {
          assert replies[1..][1..][1..] == [] && ClientsFit(replies[1..][1..]);
        } else if replies != [] {
          assert replies[1..] == [];
        }
      }
      ClientsFitAppend(Replies(s, messages[0]), AllReplies(AfterMessage(s, messages[0]), messages[1..]));
    }
  }

  lemma {:induction false} ClientsFitAppend(xs: seq<ClientMessage>, ys: seq<ClientMessage>)
    requires ClientsFit(xs) && ClientsFit(ys)
    ensures ClientsFit(xs + ys)
  {
    hide ClientFits;
    if xs == [] {
      assert xs + ys == ys;
    } else {
      assert (xs + ys)[1..] == xs[1..] + ys;
      ClientsFitAppend(xs[1..], ys);
    }
  }

  /**
  On the wire: a server that decodes the octets of a run that starts at status 0 finds as many
  requests as it sent refreshing updates, plus one once the client is configured, and the
  configuration messages in their order.
  */
  lemma WhatTheServerSees(s: State, messages: seq<ServerMessage>)
    requires s.status == 0
    ensures var sent := ClientsWire(AllReplies(s, messages));
            var p := ParseClients(sent, 0);
            && p.Ok? && p.end == |sent|
            && CountRequests(p.value) == CountAnswered(messages) + (if AfterMessages(s, messages).status == 2 then 1 else 0)
            && Configurations(p.value) == Configured(AfterMessages(s, messages).status)
  {
    hide ClientsWire, AllReplies, AfterMessages, CountAnswered, ParseClients;
    var sent := ClientsWire(AllReplies(s, messages));
    RepliesFit(s, messages);
    AtAll(sent);
    ClientsRoundTrip(sent, 0, AllReplies(s, messages));
    FlowControl(s, messages);
    ConfigurationOrder(s, messages);
    assert Configured(0) + Configurations(AllReplies(s, messages)) == Configurations(AllReplies(s, messages));
  }

  // ----- what the raw handler is given -----

  /** A call of `framebuffer_raw_parse`, with the desktop size of that moment. */
  datatype Paint = Paint(width: uint16, height: uint16, area: Area, pixels: seq<byte>)

  predicate PaintOk(p: Paint) {
    && |p.pixels| == RawSize(p.area) && 0 < |p.pixels|
    && p.area.x + p.area.width <= p.width
    && p.area.y + p.area.height <= p.height
  }

  predicate AllPaintsOk(paints: seq<Paint>) {
    forall p <- paints :: PaintOk(p)
  }

  function PaintsOfRect(s: State, r: Rect): seq<Paint> {
    if r.Raw? && r.area.width != 0 && r.area.height != 0 && InsideDesktop(s, r.area)
    then [Paint(s.width, s.height, r.area, r.pixels)]
    else []
  }

  function PaintsOfRects(s: State, rects: seq<Rect>): seq<Paint>
    decreases |rects|
  {
    if rects == [] then [] else PaintsOfRect(s, rects[0]) + PaintsOfRects(AfterRect(s, rects[0]), rects[1..])
  }

  function PaintsOfMessage(s: State, m: ServerMessage): seq<Paint> {
    if m.FramebufferUpdate? then PaintsOfRects(s, m.rects) else []
  }

  function PaintsOfMessages(s: State, messages: seq<ServerMessage>): seq<Paint>
    decreases |messages|
  {
    if messages == [] then []
    else PaintsOfMessage(s, messages[0]) + PaintsOfMessages(AfterMessage(s, messages[0]), messages[1..])
  }

  lemma RectPaintOk(s: State, b: seq<byte>, at: nat)
    requires at <= |b|
    ensures var p := ParseRect(s, b, at); p.Ok? ==> AllPaintsOk(PaintsOfRect(s, p.value))
  {
    hide RawSize, Slice, ParseArea, ParseEncoding, ParseRows;
    if at + 12 <= |b| {
      RawSizePositive(ParseArea(b, at));
    }
  }

  lemma {:induction false} RectsPaintOk(s: State, b: seq<byte>, at: nat, n: nat)
    requires at <= |b|
    ensures var p := ParseRects(s, b, at, n); p.Ok? ==> AllPaintsOk(PaintsOfRects(s, p.value))
    decreases n
  {
    hide ParseRect, AfterRect, PaintsOfRect;
    if n == 0 {
    } else {
      RectPaintOk(s, b, at);
      var r := ParseRect(s, b, at);
      if r.Ok? {
        var rects := ParseRects(AfterRect(s, r.value), b, r.end, n - 1);
        if rects.Ok? {
          RectsPaintOk(AfterRect(s, r.value), b, r.end, n - 1);
          assert ([r.value] + rects.value)[1..] == rects.value;
        }
      }
    }
  }

  lemma MessagePaintOk(s: State, b: seq<byte>, at: nat)
    requires at <= |b|
    ensures var p := ParseMessage(s, b, at); p.Ok? ==> AllPaintsOk(PaintsOfMessage(s, p.value))
  {
    if at + 4 <= |b| {
      RectsPaintOk(s, b, at + 4, Read16(b, at + 2));
    }
  }

  lemma {:induction false} RunPaintsOk(s: State, b: seq<byte>, at: nat, k: nat)
    requires at <= |b|
    ensures var p := ParseFirst(s, b, at, k); p.Ok? ==> AllPaintsOk(PaintsOfMessages(s, p.value))
    decreases k
  {
    hide ParseMessage, AfterMessage, PaintsOfMessage, IsByeBye, PaintOk;
    if 0 < k {
      MessagePaintOk(s, b, at);
      var m := ParseMessage(s, b, at);
      if m.Ok? {
        if IsByeBye(m.value) {
          assert [m.value][1..] == [];
          assert PaintsOfMessages(s, [m.value]) == PaintsOfMessage(s, m.value) + [];
        } else {
          var p := ParseFirst(AfterMessage(s, m.value), b, m.end, k - 1);
          if p.Ok? {
            RunPaintsOk(AfterMessage(s, m.value), b, m.end, k - 1);
            assert ([m.value] + p.value)[1..] == p.value;
          }
        }
      }
    }
  }

  /**
  On every stream, whether or not it ever reaches a ByeBye: after any number of messages, and
  any number of rectangles of an update after them, every payload that has been handed to the
  raw handler has exactly two octets for each pixel of a rectangle that lies inside the
  desktop as it was at that moment.
  */
  lemma RawSafety(s: State, b: seq<byte>, at: nat, messages: nat, rects: nat)
    requires at <= |b|
    ensures var p := ParseFirst(s, b, at, messages);
            p.Ok? ==>
              && AllPaintsOk(PaintsOfMessages(s, p.value))
              && var t := AfterMessages(s, p.value);
                 p.end + 4 <= |b| && b[p.end] == 0 ==>
                   var q := ParseRects(t, b, p.end + 4, rects);
                   q.Ok? ==> AllPaintsOk(PaintsOfMessages(s, p.value) + PaintsOfRects(t, q.value))
  {
    hide ParseFirst, ParseRects, AfterMessages, PaintsOfMessages, PaintsOfRects, PaintOk;
    RunPaintsOk(s, b, at, messages);
    var p := ParseFirst(s, b, at, messages);
    if p.Ok? && p.end + 4 <= |b| {
      RectsPaintOk(AfterMessages(s, p.value), b, p.end + 4, rects);
    }
  }
}
