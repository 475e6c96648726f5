/** UI/http_client.c: building a request, sending it, and receiving until the response is complete. */
module HttpClient {
  import opened Bytes
  import opened Environment
  import opened Buffers
  import opened Conn
  import opened CText
  import opened Str
  import HttpRequest
  import opened HttpResponse

  function BodyOption(s: array?<byte>): Option<seq<byte>>
    reads s
  {
    if s == null then None else Some(Chars(s))
  }

  class HttpReq {
    var verb: array?<byte>
    var path: array?<byte>
    var header: array?<byte>
    var body: array?<byte>

    ghost predicate Valid()
      reads this, verb, path, header, body
    {
      IsStr(verb) && IsStr(path) && IsStr(header) && IsStr(body)
    }

    /** `http_client_make_req` */
    constructor Make(verb: seq<byte>, path: seq<byte>)
      requires NulFree(verb) && NulFree(path)
      ensures Valid() && Chars(this.verb) == verb && Chars(this.path) == path
      ensures header == null && body == null
      ensures verb != [] ==> this.verb != null
      ensures path != [] ==> this.path != null
    {
      header, body := null, null;
      this.verb := null;
      this.path := null;
      new;
      this.verb := StrAppend(this.verb, verb);
      this.path := StrAppend(this.path, path);
    }

    /** `http_client_add_header` */
    method AddHeader(line: seq<byte>)
      requires Valid() && NulFree(line)
      modifies `header
      ensures Valid() && Chars(header) == old(Chars(header)) + line
    {
      header := StrAppend(header, line);
    }

    /** `http_client_set_body`: a GET takes none. */
    method SetBody(text: seq<byte>) returns (result: int)
      requires Valid() && NulFree(text)
      modifies `body
      ensures Valid() && (result == 0 <==> Chars(verb) != HttpRequest.GET) && result in {0, -1}
      ensures result == -1 ==> body == old(body)
      ensures result == 0 ==> Chars(body) == old(Chars(body)) + text && (body == null <==> old(body) == null && text == [])
    {
      if Chars(verb) != HttpRequest.GET {
        body := StrAppend(body, text);
        return 0;
      }
      return -1;
    }

    /** The lines that `sprintf` prints must fit the 100 octets they are printed to. */
    ghost predicate Fits(host: seq<byte>, port: uint16)
      reads this, verb, path
    {
      && |HttpRequest.RequestLine(Chars(verb), Chars(path))| + 2 < 100
      && |HttpRequest.HostLine(host, port)| + 2 < 100
    }

    ghost function Text(host: seq<byte>, port: uint16): seq<byte>
      reads this, verb, path, header, body
    {
      HttpRequest.RequestText(Chars(verb), Chars(path), host, port, Chars(header), BodyOption(body))
    }

    /** A body adds its length to the headers. */
    method AddLength()
      requires Valid()
      modifies `header
      ensures Valid() && Chars(header) == old(Chars(header)) + HttpRequest.BodyHeader(BodyOption(body))
      ensures header != null || old(header) == null
    {
      hide HttpRequest.LengthLine;
      if body != null {
        var line := HttpRequest.LengthLine(|Chars(body)|) + CRLF;
        LinesNulFree([], [], [], 0, |Chars(body)|);
        header := StrAppend(header, line);
      } else {
        assert Chars(header) + [] == Chars(header);
      }
    }

    /** The first half of `http_client_send`: the text of the request. */
    method Build(host: seq<byte>, port: uint16) returns (wbuf: array<byte>)
      requires Valid() && verb != null && path != null && NulFree(host) && Fits(host, port)
      modifies `header
      ensures fresh(wbuf) && IsStr(wbuf) && Chars(wbuf) == old(Text(host, port))
    {
      hide HttpRequest.RequestLine, HttpRequest.HostLine, HttpRequest.LengthLine, HttpRequest.RequestText,
           HttpRequest.POST, CRLF, HttpRequest.BodyHeader, NulFree, Chars;
      NullChars();
      var verbText, pathText := Chars(verb), Chars(path);
      ghost var before, content := Chars(header), BodyOption(body);
      var first := HttpRequest.RequestLine(verbText, pathText) + CRLF;
      var second := HttpRequest.HostLine(host, port) + CRLF;
      CharsNulFree(verb);
      CharsNulFree(path);
      CharsNulFree(body);
      LinesNulFree(verbText, pathText, host, port, if body == null then 0 else |Chars(body)|);
      var w := StrAppend(null, first);
      w := StrAppend(w, second);
      AddLength();
      CharsNulFree(header);
      var lines := Chars(header);
      if header != null {
        w := StrAppend(w, lines);
      } else {
        assert Chars(w) + [] == Chars(w);
      }
      w := StrAppend(w, CRLF);
      if verbText == HttpRequest.POST && body != null {
        w := StrAppend(w, Chars(body));
      } else {
        assert Chars(w) + [] == Chars(w);
      }
      PartsOfText(verbText, pathText, host, port, before, content, Chars(w), first, second, lines);
      wbuf := w;
    }
  }

  lemma LinesNulFree(verb: seq<byte>, path: seq<byte>, host: seq<byte>, port: uint16, n: nat)
    requires NulFree(verb) && NulFree(path) && NulFree(host)
    ensures NulFree(HttpRequest.RequestLine(verb, path) + CRLF)
    ensures NulFree(HttpRequest.HostLine(host, port) + CRLF)
    ensures NulFree(HttpRequest.LengthLine(n) + CRLF)
    ensures NulFree(CRLF) && CRLF != []
  {
    hide Dec;
    assert forall i | 0 <= i < |Dec(port)| :: IsDigit(Dec(port)[i]);
    assert forall i | 0 <= i < |Dec(n)| :: IsDigit(Dec(n)[i]);
    assert NulFree(Ascii("HTTP/1.0")) && NulFree(Ascii("Host: ")) && NulFree(Ascii("Content-Length:"));
  }

  lemma PartsOfText(verb: seq<byte>, path: seq<byte>, host: seq<byte>, port: uint16, before: seq<byte>, body: Option<seq<byte>>,
                    text: seq<byte>, first: seq<byte>, second: seq<byte>, header: seq<byte>)
    requires first == HttpRequest.RequestLine(verb, path) + CRLF
    requires second == HttpRequest.HostLine(host, port) + CRLF
    requires header == before + HttpRequest.BodyHeader(body)
    requires text == [] + first + second + header + CRLF
                     + if verb == HttpRequest.POST && body.Some? then body.value else []
    ensures text == HttpRequest.RequestText(verb, path, host, port, before, body)
  {
    hide HttpRequest.RequestLine, HttpRequest.HostLine, HttpRequest.BodyHeader;
  }

  // ----- receiving -----

  lemma CStringOfPadded(m: seq<byte>, n: nat)
    requires n < |m| && m[n] == 0
    ensures CString(m) == CString(m[..n])
  {
    var c := m[..n];
    var r := CString(c);
    assert r == m[..|r|] && m[|r|] == 0;
    CStringIs(m, r);
  }

  lemma CStringOfNulFree(t: seq<byte>)
    requires NulFree(t)
    ensures CString(t) == t
  {
    var r := CString(t);
  }

  /** The text that has been received since `from`. */
  ghost function Received(sock: Socket, from: nat): seq<byte>
    reads sock
    requires from <= sock.got <= |sock.stream|
  {
    CString(Slice(sock.stream, from, sock.got))
  }

  /** The scans of one turn of the loop; every `continue` of the source is a return here. */
  method Attempt(text: seq<byte>, before: uint16) returns (errcode: uint16, body: array?<byte>, done: bool)
    requires NulFree(text)
    ensures IsStr(body) && done == Try(text).Done?
    ensures if done then Try(text) == Done(errcode, BodyOption(body)) else body == null
    ensures errcode == match ScanStatus(text) case None => before case Some(status) => status % 0x1_0000
  {
    hide ScanStatus, FindLength, ScanLength, Find;
    errcode, body, done := before, null, false;
    var status := ScanStatus(text);
    if status.None? {
      return;
    }
    errcode := status.value % 0x1_0000;
    var at := FindLength(text);
    if at == -1 {
      return;
    }
    var length := ScanLength(text, at);
    if length.None? {
      return;
    }
    if 0 < length.value {
      var blank := Find(text, BLANK_LINE, at);
      if blank == -1 {
        return;
      }
      var pos := blank + 4;
      if length.value <= |text| - pos {
        TailNulFree(text, pos);
        body := StrAppend(null, Slice(text, pos, |text|));
        assert Chars(null) + Slice(text, pos, |text|) == Slice(text, pos, |text|);
        done := true;
      }
    } else {
      done := true;
    }
  }

  lemma TailNulFree(t: seq<byte>, from: nat)
    requires NulFree(t) && from <= |t|
    ensures NulFree(Slice(t, from, |t|))
  {
  }

  lemma TryNothing()
    ensures Try(CString([])) == More && StatusRead(CString([])) == 0
  {
  }

  /** A status once scanned stays scanned when more is received. */
  lemma StatusStaysReceived(b: seq<byte>, from: nat, middle: nat, end: nat)
    requires from <= middle <= end <= |b| && ScanStatus(CString(Slice(b, from, middle))).Some?
    ensures ScanStatus(CString(Slice(b, from, end))).Some?
  {
    hide ScanStatus, CString;
    var t := Slice(b, from, end);
    assert Cut(t, middle - from) == Slice(b, from, middle);
    CStringOfCut(t, middle - from);
    StatusStays(CString(t), |CString(Cut(t, middle - from))|);
  }

  lemma Gathered(b: seq<byte>, from: nat, middle: nat, end: nat)
    requires from <= middle <= end <= |b|
    ensures Slice(b, from, middle) + b[middle..end] == Slice(b, from, end)
  {
  }

  lemma BufferText(memory: seq<byte>, content: seq<byte>)
    requires |content| < |memory| && content == memory[..|content|] && memory[|content|] == 0
    ensures CString(memory) == CString(content)
  {
    CStringOfPadded(memory, |content|);
  }

  /** Whenever a read would have blocked, from one read event to another, the text received by then was incomplete. */
  ghost predicate StillIncomplete(stream: seq<byte>, script: seq<ReadEvent>, trace: seq<nat>, from: nat, first: nat, to: int)
  {
    forall i | first <= i < to && i < |trace| && i < |script| && script[i] in {ReadAgain, ReadData(0)} ::
      from <= trace[i] <= |stream| && Try(CString(Slice(stream, from, trace[i]))).More?
  }

  lemma NothingYet(stream: seq<byte>, script: seq<ReadEvent>, trace: seq<nat>, from: nat, first: nat)
    ensures StillIncomplete(stream, script, trace, from, first, first)
    ensures StillIncomplete(stream, script, trace, from, first, first - 1)
  {
  }

  /** One drain more, which ends at the first read that would block. */
  lemma DrainedOnce(sock: Socket, before: seq<nat>, from: nat, first: nat, result: int)
    requires sock.Valid() && before <= sock.trace && from <= sock.got && result in {0, -1, -3}
    requires StillIncomplete(sock.stream, sock.readScript, before, from, first, |before|)
    requires sock.NoStop(|before|, sock.readAt - 1)
    requires result == 0 ==> sock.Blocked()
    requires result == -1 ==> sock.NoStop(|before|, sock.readAt)
    requires result == -3 ==> sock.NoBlock(|before|, sock.readAt)
    ensures StillIncomplete(sock.stream, sock.readScript, sock.trace, from, first, sock.readAt - 1)
    ensures Try(CString(Slice(sock.stream, from, sock.got))).More? ==>
              StillIncomplete(sock.stream, sock.readScript, sock.trace, from, first, sock.readAt)
  {
    hide Try, CString, Slice;
  }

  /** One drain of the socket, after which the buffer holds all that was received since `from`. */
  method ReceiveMore(sock: Socket, rbuf: Buffer, ghost from: nat, ghost first: nat) returns (quit: int)
    requires sock.Valid() && rbuf.Valid() && from <= sock.got && rbuf.len + |sock.Unread()| + 1025 < 0x1_0000_0000
    requires rbuf.Content() == Slice(sock.stream, from, sock.got)
    requires StillIncomplete(sock.stream, sock.readScript, sock.trace, from, first, sock.readAt)
    modifies sock`got, sock`selectAt, sock`readAt, sock`trace, rbuf, rbuf.buf
    ensures sock.Valid() && rbuf.Valid() && old(sock.got) <= sock.got && (rbuf.buf == old(rbuf.buf) || fresh(rbuf.buf))
    ensures rbuf.Content() == Slice(sock.stream, from, sock.got)
    ensures old(sock.readAt) <= sock.readAt && (quit == 0 ==> old(sock.readAt) < sock.readAt)
    ensures sock.QuietIn() && quit != 0 ==> sock.Unread() == []
    ensures StillIncomplete(sock.stream, sock.readScript, sock.trace, from, first, sock.readAt - 1)
    ensures Try(Received(sock, from)).More? ==>
              StillIncomplete(sock.stream, sock.readScript, sock.trace, from, first, sock.readAt)
  {
    hide Try, CString, Slice, Drained, StillIncomplete,
         sock.SelectsPass, sock.NoStop, sock.NoBlock, sock.Blocked, sock.SelectFailed, sock.ExceptionalNext, sock.QuietIn;
    ghost var mark, content, before := sock.got, rbuf.Content(), sock.trace;
    quit := ConnReadAll(sock, rbuf);
    DrainedMeans(sock, rbuf, content, mark);
    DrainedOnce(sock, before, from, first, quit);
    Gathered(sock.stream, from, mark, sock.got);
  }

  /**
  The second half of `http_client_send`: reads and tries again until the response is complete
  or the connection ends.  Status and body are those of the text received when the loop ended,
  and it does not wait for more once the text is complete.
  */
  method Receive(sock: Socket) returns (errcode: uint16, body: array?<byte>)
    requires sock.Valid() && |sock.Unread()| + 1025 < 0x1_0000_0000
    modifies sock`got, sock`selectAt, sock`readAt, sock`trace
    ensures sock.Valid() && old(sock.got) <= sock.got && IsStr(body)
    ensures errcode == StatusRead(Received(sock, old(sock.got)))
    ensures BodyOption(body) == BodyRead(Received(sock, old(sock.got)))
    ensures sock.QuietIn() && Try(Received(sock, old(sock.got))).More? ==> sock.Unread() == []
    ensures StillIncomplete(sock.stream, sock.readScript, sock.trace, old(sock.got), old(sock.readAt), sock.readAt - 1)
  {
    hide Try, CString, ScanStatus, Slice, NulFree, StillIncomplete, sock.QuietIn;
    ghost var from, first := sock.got, sock.readAt;
    NothingYet(sock.stream, sock.readScript, sock.trace, from, first);
    var rbuf := new Buffer.Init(0);
    var quit := 0;
    errcode, body := 0, null;
    TryNothing();
    SliceEmpty(sock.stream, from);
    while quit == 0
      invariant fresh(rbuf) && (rbuf.buf != null ==> fresh(rbuf.buf))
      invariant sock.Valid() && rbuf.Valid() && from <= sock.got
      invariant rbuf.Content() == Slice(sock.stream, from, sock.got)
      invariant body == null && errcode == StatusRead(Received(sock, from))
      invariant Try(Received(sock, from)).More?
      invariant sock.QuietIn() && quit != 0 ==> sock.Unread() == []
      invariant StillIncomplete(sock.stream, sock.readScript, sock.trace, from, first, sock.readAt)
      invariant StillIncomplete(sock.stream, sock.readScript, sock.trace, from, first, sock.readAt - 1)
      decreases quit == 0, |sock.readScript| - sock.readAt
    {
      ghost var mark := sock.got;
      quit := ReceiveMore(sock, rbuf, from, first);
      if rbuf.len == 0 {
        continue;
      }
      rbuf.Append(1);
      BufferText(rbuf.buf[..], rbuf.Content());
      var done;
      errcode, body, done := Attempt(CString(rbuf.buf[..]), errcode);
      StatusKept(sock.stream, from, mark, sock.got);
      if done {
        break;
      }
    }
    rbuf.Clear();
  }

  lemma StatusKept(b: seq<byte>, from: nat, middle: nat, end: nat)
    requires from <= middle <= end <= |b|
    ensures ScanStatus(CString(Slice(b, from, end))).None? ==> StatusRead(CString(Slice(b, from, middle))) == 0
  {
    hide ScanStatus, CString, Slice;
    if ScanStatus(CString(Slice(b, from, middle))).Some? {
      StatusStaysReceived(b, from, middle, end);
    }
  }

  /**
  A response with its declared length is never misread, however much of it has been received:
  the loop goes on, or ends with its status and body.  Once it is all there, the loop has ended.
  */
  lemma NeverMisread(b: seq<byte>, from: nat, end: nat, r: Response)
    requires WellFormed(r) && r.declared == |r.body|
    requires from <= end <= |b| && b[from..] == HttpResponse.Text(r)
    ensures Try(CString(Slice(b, from, end))) in {More, Answer(r)}
    ensures end == |b| ==> Try(CString(Slice(b, from, end))) == Answer(r)
  {
    hide Try, CString, HttpResponse.Text, NulFree, Find, WellFormed, Slice, Cut, Answer;
    StatusIsSmall(r);
    ReceivedIsCut(b, from, end, HttpResponse.Text(r));
    TextNulFree(r, end - from);
    CompleteResponse(r, end - from);
  }

  lemma StatusIsSmall(r: Response)
    requires WellFormed(r)
    ensures r.status < 1000
  {
  }

  lemma ReceivedIsCut(b: seq<byte>, from: nat, end: nat, text: seq<byte>)
    requires from <= end <= |b| && b[from..] == text
    ensures end - from <= |text| && Slice(b, from, end) == Cut(text, end - from)
    ensures b[end..] == [] ==> end - from == |text|
  {
  }

  lemma TextNulFree(r: Response, n: nat)
    requires WellFormed(r) && n <= |HttpResponse.Text(r)|
    ensures CString(Cut(HttpResponse.Text(r), n)) == Cut(HttpResponse.Text(r), n)
  {
    hide HttpResponse.Text;
    CStringOfNulFree(Cut(HttpResponse.Text(r), n));
  }

  /** With all of a response received, or the loop ended by what was, the caller gets the response. */
  lemma ReceivedWhole(b: seq<byte>, from: nat, end: nat, r: Response)
    requires WellFormed(r) && r.declared == |r.body|
    requires from <= end <= |b| && b[from..] == HttpResponse.Text(r)
    requires Try(CString(Slice(b, from, end))).More? ==> end == |b|
    ensures 0 < r.status < 1000 && Outcome(CString(Slice(b, from, end))) == Whole(r)
  {
    hide CString, HttpResponse.Text, NulFree, Find, WellFormed, Slice, Cut, ScanStatus, Try;
    StatusBounds(r);
    NeverMisread(b, from, end, r);
    DoneIsOutcome(CString(Slice(b, from, end)));
  }

  lemma AnyWhole(b: seq<byte>, from: nat, end: nat)
    requires from <= end <= |b| && (Try(CString(Slice(b, from, end))).More? ==> end == |b|)
    ensures forall r: Response | WellFormed(r) && r.declared == |r.body| && b[from..] == HttpResponse.Text(r) ::
              Outcome(CString(Slice(b, from, end))) == Whole(r)
  {
    hide CString, HttpResponse.Text, NulFree, Find, Slice, Cut, ScanStatus, Try, Outcome;
    forall r: Response | WellFormed(r) && r.declared == |r.body| && b[from..] == HttpResponse.Text(r)
      ensures Outcome(CString(Slice(b, from, end))) == Whole(r)
    {
      ReceivedWhole(b, from, end, r);
    }
  }

  /** What ends the loop is what the caller gets. */
  lemma DoneIsOutcome(t: seq<byte>)
    ensures match Try(t)
            case Done(status, body) => StatusRead(t) == status && BodyRead(t) == body
            case More => BodyRead(t) == None
  {
    hide ScanStatus, FindLength, ScanLength, Find, Slice;
  }

  /**
  `http_client_send` on a connected socket, or null if the connection failed.  The request
  is written as a prefix of its text, all of it if no transfer fails.  The caller gets what the
  text received by the end says; if no transfer fails, a whole response however it was cut up.
  */
  method Send(host: seq<byte>, port: uint16, req: HttpReq, sock: Socket?) returns (rsp: Option<Rsp>)
    requires req.Valid() && req.verb != null && req.path != null && NulFree(host) && req.Fits(host, port)
    requires |req.Text(host, port)| < 0x1_0000_0000
    requires sock != null ==> sock.Valid() && |sock.Unread()| + 1025 < 0x1_0000_0000
    modifies req`header, sock
    ensures sock == null ==> rsp == None
    ensures sock != null ==> sock.Valid() && old(sock.got) <= sock.got
    ensures sock != null && sock.Quiet() ==> sock.sent == old(sock.sent) + old(req.Text(host, port))
    ensures sock != null ==> rsp == Outcome(Received(sock, old(sock.got)))
    ensures sock != null && sock.QuietIn() && Try(Received(sock, old(sock.got))).More? ==> sock.Unread() == []
    ensures sock != null ==>
              StillIncomplete(sock.stream, sock.readScript, sock.trace, old(sock.got), old(sock.readAt), sock.readAt - 1)
    ensures sock != null && sock.QuietIn() ==>
              forall r: Response | WellFormed(r) && r.declared == |r.body| && old(sock.Unread()) == HttpResponse.Text(r) ::
                rsp == Whole(r)
  {
    hide Try, CString, NulFree, WellFormed, HttpResponse.Text, StatusRead, BodyRead, StillIncomplete;
    if sock == null {
      return None;
    }
    ghost var from := sock.got;
    var wbuf := req.Build(host, port);
    var _ := ConnWrite(sock, wbuf, wbuf.Length - 1);
    assert wbuf[..wbuf.Length - 1] == Chars(wbuf);
    var errcode, body := Receive(sock);
    rsp := if errcode == 0 then None else Some(Rsp(errcode, BodyOption(body)));
    if sock.QuietIn() {
      AnyWhole(sock.stream, from, sock.got);
    }
  }
}
