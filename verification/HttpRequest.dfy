/**
The request half of UI/http_client.c: what it writes for a request, and that a server which
reads it by RFC 1945 section 5 gets back what was asked.
*/
module HttpRequest {
  import opened Bytes
  import opened CText

  const POST: seq<byte> := Ascii("POST")
  const GET: seq<byte> := Ascii("GET")

  // ----- what is written -----

  function RequestLine(verb: seq<byte>, path: seq<byte>): seq<byte> {
    verb + [32] + path + [32] + Ascii("HTTP/1.0")
  }

  function HostLine(host: seq<byte>, port: uint16): seq<byte> {
    Ascii("Host: ") + host + [58] + Dec(port)
  }

  function LengthLine(n: nat): seq<byte> {
    Ascii("Content-Length:") + Dec(n)
  }

  /** The header block that the body adds. */
  function BodyHeader(body: Option<seq<byte>>): seq<byte> {
    if body.Some? then LengthLine(|body.value|) + CRLF else []
  }

  function SentBody(verb: seq<byte>, body: Option<seq<byte>>): seq<byte> {
    if verb == POST && body.Some? then body.value else []
  }

  function RequestText(verb: seq<byte>, path: seq<byte>, host: seq<byte>, port: uint16, header: seq<byte>, body: Option<seq<byte>>): seq<byte> {
    (RequestLine(verb, path) + CRLF) + (HostLine(host, port) + CRLF) + (header + BodyHeader(body)) + CRLF + SentBody(verb, body)
  }

  /** Octet by octet: the request line, "Host: ", the headers, "Content-Length:", a blank line, and for POST the body. */
  lemma RequestOctets(verb: seq<byte>, path: seq<byte>, host: seq<byte>, port: uint16, header: seq<byte>, body: Option<seq<byte>>)
    ensures RequestText(verb, path, host, port, header, body) ==
            (verb + [32] + path + [32] + [72, 84, 84, 80, 47, 49, 46, 48] + [13, 10])
            + ([72, 111, 115, 116, 58, 32] + host + [58] + Dec(port) + [13, 10])
            + (header + if body.None? then []
                        else [67, 111, 110, 116, 101, 110, 116, 45, 76, 101, 110, 103, 116, 104, 58] + Dec(|body.value|) + [13, 10])
            + [13, 10] + (if verb == [80, 79, 83, 84] && body.Some? then body.value else [])
    ensures GET == [71, 69, 84]
  {
    hide Ascii, Dec, POST, GET;
    VerbOctets();
    HeaderOctets();
  }

  lemma VerbOctets()
    ensures POST == [80, 79, 83, 84] && GET == [71, 69, 84]
    ensures Ascii("HTTP/1.0") == [72, 84, 84, 80, 47, 49, 46, 48]
  {
  }

  lemma HeaderOctets()
    ensures Ascii("Host: ") == [72, 111, 115, 116, 58, 32]
    ensures Ascii("Content-Length:") == [67, 111, 110, 116, 101, 110, 116, 45, 76, 101, 110, 103, 116, 104, 58]
  {
  }

  // ----- what a server reads -----

  /** A line that cannot be mistaken for the end of the header: not empty, and without CR. */
  predicate LineOk(line: seq<byte>) {
    line != [] && 13 !in line
  }

  predicate LinesOk(lines: seq<seq<byte>>) {
    lines == [] || (LineOk(lines[0]) && LinesOk(lines[1..]))
  }

  lemma {:induction false} LinesOkExactly(lines: seq<seq<byte>>)
    ensures LinesOk(lines) <==> forall i | 0 <= i < |lines| :: lines[i] != [] && 13 !in lines[i]
  {
    if lines != [] {
      LinesOkExactly(lines[1..]);
      assert forall i | 1 <= i < |lines| :: lines[i] == lines[1..][i - 1];
    }
  }

  /** Lines up to an empty one; the offset after it. */
  function ParseLines(t: seq<byte>, at: nat): (r: Option<(seq<seq<byte>>, nat)>)
    requires at <= |t|
    ensures r.Some? ==> r.value.1 <= |t|
    decreases |t| - at
  {
    var end := Find(t, CRLF, at);
    if end == -1 then None
    else if end == at then Some(([], at + 2))
    else
      match ParseLines(t, end + 2)
      case Some((lines, next)) => Some(([Slice(t, at, end)] + lines, next))
      case None => None
  }

  datatype Parsed = Parsed(verb: seq<byte>, path: seq<byte>, version: seq<byte>, headers: seq<seq<byte>>, body: seq<byte>)

  function ParseRequest(t: seq<byte>): Option<Parsed> {
    match ParseLines(t, 0)
    case None => None
    case Some((lines, next)) =>
      if lines == [] then None
      else
        var line := lines[0];
        var first := Find(line, [32], 0);
        if first == -1 then None
        else
          var second := Find(line, [32], first + 1);
          if second == -1 then None
          else Some(Parsed(Slice(line, 0, first), Slice(line, first + 1, second), Slice(line, second + 1, |line|),
                           lines[1..], Slice(t, next, |t|)))
  }

  // ----- round trip -----

  lemma {:induction false} LinesRoundTrip(t: seq<byte>, at: nat, lines: seq<seq<byte>>)
    requires LinesOk(lines) && At(t, at, LinesText(lines) + CRLF)
    ensures ParseLines(t, at) == Some((lines, at + |LinesText(lines)| + 2))
    decreases |lines|
  {
    hide At, Find, Slice;
    AtSplit(t, at, LinesText(lines), CRLF);
    if lines == [] {
      FindAfter(t, CRLF, at, []);
    } else {
      var line, rest := lines[0], LinesText(lines[1..]);
      var next := at + |line| + 2;
      AtSplit(t, at, line + CRLF, rest);
      AtSplit(t, at, line, CRLF);
      AtSplit(t, next, rest, CRLF);
      FindAfter(t, CRLF, at, line);
      SliceAt(t, at, line);
      LinesRoundTrip(t, next, lines[1..]);
      ConsEquals(line, lines[1..], lines);
    }
  }

  /** The lines of a request, in order. */
  function AllLines(verb: seq<byte>, path: seq<byte>, host: seq<byte>, port: uint16, headers: seq<seq<byte>>, body: Option<seq<byte>>): seq<seq<byte>> {
    [RequestLine(verb, path), HostLine(host, port)] + headers + (if body.Some? then [LengthLine(|body.value|)] else [])
  }

  lemma {:induction false} LinesTextAppend(xs: seq<seq<byte>>, ys: seq<seq<byte>>)
    ensures LinesText(xs + ys) == LinesText(xs) + LinesText(ys)
  {
    if xs == [] {
      assert xs + ys == ys;
    } else {
      assert (xs + ys)[1..] == xs[1..] + ys;
      LinesTextAppend(xs[1..], ys);
    }
  }

  lemma {:induction false} LinesOkAppend(xs: seq<seq<byte>>, ys: seq<seq<byte>>)
    requires LinesOk(xs) && LinesOk(ys)
    ensures LinesOk(xs + ys)
  {
    hide LineOk;
    if xs == [] {
      assert xs + ys == ys;
    } else {
      assert (xs + ys)[1..] == xs[1..] + ys;
      LinesOkAppend(xs[1..], ys);
    }
  }

  lemma OneLine(line: seq<byte>)
    ensures LinesText([line]) == line + CRLF && (LineOk(line) ==> LinesOk([line]))
  {
    assert [line][1..] == [];
    assert line + CRLF + [] == line + CRLF;
  }

  /** The fields a caller may put in a request line and a Host header. */
  predicate FieldsOk(verb: seq<byte>, path: seq<byte>, host: seq<byte>) {
    && 32 !in verb && 32 !in path
    && 13 !in verb && 13 !in path && 13 !in host
  }

  lemma LinesAreOk(verb: seq<byte>, path: seq<byte>, host: seq<byte>, port: uint16, n: nat)
    requires FieldsOk(verb, path, host)
    ensures LineOk(RequestLine(verb, path)) && LineOk(HostLine(host, port)) && LineOk(LengthLine(n))
  {
    DecHasNo13(port);
    DecHasNo13(n);
    assert 13 !in Ascii("HTTP/1.0") && 13 !in Ascii("Host: ") && 13 !in Ascii("Content-Length:");
  }

  lemma DecHasNo13(n: nat)
    ensures 13 !in Dec(n)
  {
    hide Dec;
    assert forall i | 0 <= i < |Dec(n)| :: IsDigit(Dec(n)[i]);
  }

  lemma TextIsLines(verb: seq<byte>, path: seq<byte>, host: seq<byte>, port: uint16, headers: seq<seq<byte>>, body: Option<seq<byte>>)
    requires FieldsOk(verb, path, host) && LinesOk(headers)
    ensures LinesOk(AllLines(verb, path, host, port, headers, body))
    ensures RequestText(verb, path, host, port, LinesText(headers), body) ==
            LinesText(AllLines(verb, path, host, port, headers, body)) + CRLF + SentBody(verb, body)
  {
    hide RequestLine, HostLine, LengthLine, LineOk, LinesText, LinesOk, SentBody;
    var n := if body.Some? then |body.value| else 0;
    LinesAreOk(verb, path, host, port, n);
    var r, h, l := RequestLine(verb, path), HostLine(host, port), LengthLine(n);
    OneLine(r);
    OneLine(h);
    OneLine(l);
    LinesTextAppend([r], [h]);
    LinesOkAppend([r], [h]);
    assert [r] + [h] == [r, h];
    LinesTextAppend([r, h], headers);
    LinesOkAppend([r, h], headers);
    if body.Some? {
      LinesTextAppend([r, h] + headers, [l]);
      LinesOkAppend([r, h] + headers, [l]);
    } else {
      assert [r, h] + headers + [] == [r, h] + headers;
      assert LinesText(headers) + [] == LinesText(headers);
    }
  }

  lemma RequestLineParts(verb: seq<byte>, path: seq<byte>)
    requires 32 !in verb && 32 !in path
    ensures var line := RequestLine(verb, path);
            && Find(line, [32], 0) == |verb| && Find(line, [32], |verb| + 1) == |verb| + 1 + |path|
            && Slice(line, 0, |verb|) == verb
            && Slice(line, |verb| + 1, |verb| + 1 + |path|) == path
            && Slice(line, |verb| + 2 + |path|, |line|) == Ascii("HTTP/1.0")
  {
    hide At, Find, Slice, Ascii;
    var line, version := RequestLine(verb, path), Ascii("HTTP/1.0");
    AtAll(line);
    AtSplit(line, 0, verb + [32] + path + [32], version);
    AtSplit(line, 0, verb + [32] + path, [32]);
    AtSplit(line, 0, verb + [32], path);
    AtSplit(line, 0, verb, [32]);
    FindAfter(line, [32], 0, verb);
    FindAfter(line, [32], |verb| + 1, path);
    SliceAt(line, 0, verb);
    SliceAt(line, |verb| + 1, path);
    SliceAt(line, |verb| + 2 + |path|, version);
  }

  // ----- the host and its port -----

  /** The last colon of a text, or -1. */
  function LastColon(t: seq<byte>): (r: int)
    ensures r == -1 || (0 <= r < |t| && t[r] == 58)
    ensures forall i | 0 <= i < |t| && r < i :: t[i] != 58
  {
    if t == [] then -1
    else if t[|t| - 1] == 58 then |t| - 1
    else LastColon(t[..|t| - 1])
  }

  /** What a server takes from the Host line: a name, and the port behind its last colon. */
  function ReadHost(line: seq<byte>): Option<(seq<byte>, int)> {
    if !At(line, 0, Ascii("Host: ")) then None
    else
      var colon := LastColon(line);
      if colon < 6 then None
      else
        match ScanInt(line, colon + 1, |line|)
        case None => None
        case Some((port, _)) => Some((Slice(line, 6, colon), port))
  }

  /** The host, whatever is in it, and the port are read back from their line. */
  lemma HostRoundTrip(host: seq<byte>, port: uint16)
    ensures ReadHost(HostLine(host, port)) == Some((host, port))
  {
    hide At, Slice, Dec, Ascii, ScanInt;
    var line, colon := HostLine(host, port), 6 + |host|;
    AtAll(line);
    AtSplit(line, 0, Ascii("Host: ") + host + [58], Dec(port));
    AtSplit(line, 0, Ascii("Host: ") + host, [58]);
    AtSplit(line, 0, Ascii("Host: "), host);
    AtOctet(line, colon, [58], 0);
    DecAt(line, colon + 1, port);
    assert forall i | colon < i < |line| :: IsDigit(line[i]);
    assert LastColon(line) == colon;
    ScanIntIs(line, colon + 1, |line|, colon + 1, |line|);
    SliceAt(line, 6, host);
  }

  /**
  Reading what was written gives back the method, the path, the host and its port, the headers
  in order and the body; the length header is there exactly when there is a body.
  */
  lemma RequestRoundTrip(verb: seq<byte>, path: seq<byte>, host: seq<byte>, port: uint16, headers: seq<seq<byte>>, body: Option<seq<byte>>)
    requires FieldsOk(verb, path, host) && LinesOk(headers)
    ensures ParseRequest(RequestText(verb, path, host, port, LinesText(headers), body)) ==
            Some(Parsed(verb, path, Ascii("HTTP/1.0"),
                        [HostLine(host, port)] + headers + (if body.Some? then [LengthLine(|body.value|)] else []),
                        SentBody(verb, body)))
    ensures ReadHost(HostLine(host, port)) == Some((host, port))
  {
    hide At, Find, Slice, RequestText, RequestLine, HostLine, LengthLine, LinesOk, LinesText, SentBody, ParseLines, ReadHost;
    HostRoundTrip(host, port);
    var t, lines := RequestText(verb, path, host, port, LinesText(headers), body), AllLines(verb, path, host, port, headers, body);
    TextIsLines(verb, path, host, port, headers, body);
    AtAll(t);
    AtSplit(t, 0, LinesText(lines) + CRLF, SentBody(verb, body));
    LinesRoundTrip(t, 0, lines);
    RequestLineParts(verb, path);
    SliceAt(t, |LinesText(lines)| + 2, SentBody(verb, body));
    assert lines[0] == RequestLine(verb, path);
    assert lines[1..] == [HostLine(host, port)] + headers + (if body.Some? then [LengthLine(|body.value|)] else []);
  }

  /** What a server takes from the length header. */
  function DeclaredLength(line: seq<byte>): Option<int> {
    if !At(line, 0, Ascii("Content-Length:")) then None
    else
      match ScanInt(line, 15, |line|)
      case None => None
      case Some((n, _)) => Some(n)
  }

  lemma DeclaredLengthIs(n: nat)
    ensures DeclaredLength(LengthLine(n)) == Some(n)
  {
    hide At, Dec, Ascii, ScanInt;
    var line := LengthLine(n);
    AtAll(line);
    AtSplit(line, 0, Ascii("Content-Length:"), Dec(n));
    DecAt(line, 15, n);
    ScanIntIs(line, 15, |line|, 15, |line|);
  }

  /**
  The declared length is the number of octets after the blank line exactly for POST: for
  any other method that may carry a body, the length is declared but the body is not sent.
  */
  lemma DeclaredLengthIsSent(verb: seq<byte>, path: seq<byte>, host: seq<byte>, port: uint16, headers: seq<seq<byte>>, body: seq<byte>)
    requires FieldsOk(verb, path, host) && LinesOk(headers) && body != []
    ensures var p := ParseRequest(RequestText(verb, path, host, port, LinesText(headers), Some(body)));
            && p.Some? && p.value.headers != []
            && (DeclaredLength(p.value.headers[|p.value.headers| - 1]) == Some(|p.value.body|) <==> verb == POST)
  {
    hide ParseRequest, RequestText, HostLine, LengthLine, LinesText, DeclaredLength;
    RequestRoundTrip(verb, path, host, port, headers, Some(body));
    DeclaredLengthIs(|body|);
  }
}
