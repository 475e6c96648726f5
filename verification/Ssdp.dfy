/** UI/ssdp.cpp: the search request, and the line scan of a response (UPnP Device Architecture 1.0 section 1.2). */
module Ssdp {
  import opened Bytes
  import opened CText

  const TM_TAS: seq<byte> := Ascii("urn:schemas-upnp-org:service:TmApplicationServer:1")
  const TM_TCP: seq<byte> := Ascii("urn:schemas-upnp-org:service:TmClientProfile:1")
  const TM_TSD: seq<byte> := Ascii("urn:schemas-upnp-org:device:TmServerDevice:1")

  const ST: seq<byte> := Ascii("ST:")
  const LOCATION: seq<byte> := Ascii("Location:")

  /** The two headers, and the three targets, which are words of their own. */
  lemma HeaderNames()
    ensures ST == [83, 84, 58] && LOCATION == [76, 111, 99, 97, 116, 105, 111, 110, 58]
  {
  }

  lemma ServiceTargets()
    ensures TM_TAS == Ascii("urn:schemas-upnp-org:service:TmApplicationServer:1")
    ensures TM_TCP == Ascii("urn:schemas-upnp-org:service:TmClientProfile:1")
    ensures TM_TAS[31] == 65 && TM_TCP[31] == 67 && TM_TAS[21] == 115 && TM_TCP[21] == 115
  {
  }

  lemma DeviceTarget()
    ensures TM_TSD == Ascii("urn:schemas-upnp-org:device:TmServerDevice:1") && TM_TSD[21] == 100
  {
  }

  /** A response names at most one slot. */
  lemma TargetsDiffer()
    ensures TM_TAS != TM_TCP && TM_TAS != TM_TSD && TM_TCP != TM_TSD
    ensures [] !in {TM_TAS, TM_TCP, TM_TSD}
  {
    hide TM_TAS, TM_TCP, TM_TSD, Ascii;
    ServiceTargets();
    DeviceTarget();
  }

  // ----- strtok(_, "\n") -----

  function SkipBreaks(t: seq<byte>, at: nat): (r: nat)
    requires at <= |t|
    ensures at <= r <= |t| && (r < |t| ==> t[r] != 10)
    ensures forall i | at <= i < r :: t[i] == 10
    decreases |t| - at
  {
    if at < |t| && t[at] == 10 then SkipBreaks(t, at + 1) else at
  }

  function LineEnd(t: seq<byte>, at: nat): (r: nat)
    requires at <= |t|
    ensures at <= r <= |t| && (r < |t| ==> t[r] == 10)
    ensures forall i | at <= i < r :: t[i] != 10
    decreases |t| - at
  {
    if at < |t| && t[at] != 10 then LineEnd(t, at + 1) else at
  }

  /** The lines of a text, without the empty ones. */
  function Lines(t: seq<byte>, at: nat): seq<seq<byte>>
    requires at <= |t|
    decreases |t| - at
  {
    var start := SkipBreaks(t, at);
    if start == |t| then []
    else
      var end := LineEnd(t, start);
      [Slice(t, start, end)] + Lines(t, if end < |t| then end + 1 else end)
  }

  // ----- strstr and sscanf("<literal> %s") -----

  predicate Contains(line: seq<byte>, pattern: seq<byte>) {
    Find(line, pattern, 0) != -1
  }

  function WordEnd(t: seq<byte>, at: nat): (r: nat)
    requires at <= |t|
    ensures at <= r <= |t| && (r < |t| ==> IsSpace(t[r]))
    ensures forall i | at <= i < r :: !IsSpace(t[i])
    decreases |t| - at
  {
    if at < |t| && !IsSpace(t[at]) then WordEnd(t, at + 1) else at
  }

  function ScanWord(line: seq<byte>, literal: seq<byte>): Option<seq<byte>> {
    if !At(line, 0, literal) then None
    else
      var start := SkipSpace(line, |literal|);
      var end := WordEnd(line, start);
      if start == end then None else Some(Slice(line, start, end))
  }

  /** The search target that a line sets, if it sets one. */
  function StOf(line: seq<byte>): Option<seq<byte>> {
    if Contains(line, ST + [32]) then ScanWord(line, ST) else None
  }

  /** The location that a line sets, if it sets one. */
  function LocationOf(line: seq<byte>): Option<seq<byte>> {
    if !Contains(line, ST + [32]) && Contains(line, LOCATION + [32]) then ScanWord(line, LOCATION) else None
  }

  // ----- what a response sets -----

  /** The last search target set, or nothing. */
  function LastSt(lines: seq<seq<byte>>): seq<byte> {
    if lines == [] then []
    else
      match StOf(lines[|lines| - 1])
      case Some(word) => word
      case None => LastSt(lines[..|lines| - 1])
  }

  /** The last location set, or nothing. */
  function LastLocation(lines: seq<seq<byte>>): seq<byte> {
    if lines == [] then []
    else
      match LocationOf(lines[|lines| - 1])
      case Some(word) => word
      case None => LastLocation(lines[..|lines| - 1])
  }

  /** Each line that sets a value overrides the lines before it; one with "ST: " in it is no Location line. */
  lemma LastLineWins(lines: seq<seq<byte>>, line: seq<byte>)
    ensures LastSt(lines + [line]) == (if StOf(line).Some? then StOf(line).value else LastSt(lines))
    ensures LastLocation(lines + [line]) == (if LocationOf(line).Some? then LocationOf(line).value else LastLocation(lines))
    ensures (exists i | 0 <= i <= |line| :: At(line, i, [83, 84, 58, 32])) ==> LocationOf(line) == None
  {
    hide StOf, ScanWord, ST, At;
    HeaderNames();
    assert ST + [32] == [83, 84, 58, 32];
    assert (lines + [line])[..|lines|] == lines;
  }

  lemma LinesEnd(t: seq<byte>, at: nat)
    requires at <= |t|
    ensures SkipBreaks(t, at) == |t| ==> Lines(t, at) == []
  {
  }

  lemma LinesStep(t: seq<byte>, at: nat, start: nat, end: nat)
    requires at <= |t| && start == SkipBreaks(t, at) < |t| && end == LineEnd(t, start)
    ensures Lines(t, at) == [Slice(t, start, end)] + Lines(t, if end < |t| then end + 1 else end)
  {
  }

  // ----- room for the words -----

  /** The size of the two local texts and of the three slots. */
  const SLOT := 1024

  lemma {:induction false} LinesShort(t: seq<byte>, at: nat)
    requires at <= |t|
    ensures forall k | 0 <= k < |Lines(t, at)| :: |Lines(t, at)[k]| <= |t|
    decreases |t| - at
  {
    hide Slice;
    var start := SkipBreaks(t, at);
    if start < |t| {
      var end := LineEnd(t, start);
      LinesShort(t, if end < |t| then end + 1 else end);
    }
  }

  /** A word is shorter than its line by at least the literal before it. */
  lemma WordsShort(line: seq<byte>)
    ensures StOf(line).Some? ==> |StOf(line).value| + 3 <= |line|
    ensures LocationOf(line).Some? ==> |LocationOf(line).value| + 9 <= |line|
  {
    hide At, Contains;
    assert |ST| == 3 && |LOCATION| == 9;
  }

  lemma {:induction false} LastShort(lines: seq<seq<byte>>, n: nat)
    requires forall k | 0 <= k < |lines| :: |lines[k]| <= n
    ensures |LastSt(lines)| + 3 <= n || LastSt(lines) == []
    ensures |LastLocation(lines)| + 9 <= n || LastLocation(lines) == []
  {
    hide StOf, LocationOf;
    if lines != [] {
      WordsShort(lines[|lines| - 1]);
      LastShort(lines[..|lines| - 1], n);
    }
  }

  /** A datagram of at most 1024 octets, which is what the caller reads, overruns neither text and no slot. */
  lemma SlotsSuffice(t: seq<byte>)
    requires |t| <= 1024
    ensures |LastSt(Lines(t, 0))| < SLOT && |LastLocation(Lines(t, 0))| < SLOT
  {
    hide Lines, LastSt, LastLocation;
    LinesShort(t, 0);
    LastShort(Lines(t, 0), 1024);
  }

  class Context {
    var tmApplicationServer: seq<byte>
    var tmClientProfile: seq<byte>
    var tmServerDevice: seq<byte>

    /** `handle_ssdp_resp` on a NUL-terminated buffer, which it cuts into lines in place. */
    method HandleSsdpResp(buffer: array<byte>)
      requires 0 in buffer[..]
      modifies buffer, this
      ensures var lines := Lines(CString(old(buffer[..])), 0);
              var st, location := LastSt(lines), LastLocation(lines);
              && tmApplicationServer == (if st == TM_TAS then location else old(tmApplicationServer))
              && tmClientProfile == (if st == TM_TCP then location else old(tmClientProfile))
              && tmServerDevice == (if st == TM_TSD then location else old(tmServerDevice))
    {
      hide CString, Lines, LastSt, LastLocation, Slice, Contains, ScanWord;
      ghost var t := CString(buffer[..]);
      ghost var lines := Lines(t, 0);
      Terminated(buffer[..]);
      NothingYet(lines);
      var st, location := [], [];
      var next := 0;
      ghost var k := 0;
      var more := true;
      while more
        invariant 0 <= next <= |t| < buffer.Length && k <= |lines|
        invariant forall i | next <= i < |t| :: buffer[i] == t[i]
        invariant buffer[|t|] == 0
        invariant more ==> Lines(t, next) == lines[k..]
        invariant !more ==> k == |lines|
        invariant st == LastSt(lines[..k]) && location == LastLocation(lines[..k])
        invariant tmApplicationServer == old(tmApplicationServer) && tmClientProfile == old(tmClientProfile)
        invariant tmServerDevice == old(tmServerDevice)
        decreases more, |t| - next
      {
        var found, start, end, after := StrTok(buffer, next, t);
        LinesEnd(t, next);
        if found {
          var ptr := CString(buffer[start..]);
          LinesStep(t, next, start, end);
          OneMoreLine(lines, k, ptr, Lines(t, after));
          if Contains(ptr, ST + [32]) {
            var word := ScanWord(ptr, ST);
            st := if word.Some? then word.value else st;
          } else if Contains(ptr, LOCATION + [32]) {
            var word := ScanWord(ptr, LOCATION);
            location := if word.Some? then word.value else location;
          }
          k := k + 1;
          next := after;
        } else {
          more := false;
        }
      }
      assert lines[..k] == lines;
      if st == TM_TAS {
        tmApplicationServer := location;
      }
      if st == TM_TCP {
        tmClientProfile := location;
      }
      if st == TM_TSD {
        tmServerDevice := location;
      }
    }
  }

  /** `strtok`: the next line at or after `from`, ended by a NUL in place; `after` is where the next call goes on. */
  method StrTok(buffer: array<byte>, from: nat, ghost t: seq<byte>) returns (found: bool, start: nat, end: nat, after: nat)
    requires from <= |t| < buffer.Length && NulFree(t) && buffer[|t|] == 0
    requires forall i | from <= i < |t| :: buffer[i] == t[i]
    modifies buffer
    ensures start == SkipBreaks(t, from) && found == (start < |t|)
    ensures found ==> end == LineEnd(t, start) && after == if end < |t| then end + 1 else end
    ensures found ==> end < buffer.Length && buffer[end] == 0
    ensures found ==> forall i | start <= i < end :: buffer[i] == t[i]
    ensures found ==> CString(buffer[start..]) == Slice(t, start, end)
    ensures buffer[|t|] == 0
    ensures forall i | (if found then after else from) <= i < |t| :: buffer[i] == t[i]
  {
    hide SkipBreaks, LineEnd, CString, Slice;
    start := from;
    while buffer[start] == 10
      invariant from <= start <= |t| && forall i | from <= i < start :: t[i] == 10
      decreases |t| - start
    {
      start := start + 1;
    }
    end, after := start, start;
    if buffer[start] == 0 {
      return false, start, end, after;
    }
    while buffer[end] != 10 && buffer[end] != 0
      invariant start <= end <= |t| && forall i | start <= i < end :: t[i] != 10
      decreases |t| - end
    {
      end := end + 1;
    }
    after := end;
    if buffer[end] == 10 {
      buffer[end] := 0;
      after := end + 1;
    }
    found := true;
    LineInPlace(buffer[..], t, start, end);
    assert buffer[start..] == buffer[..][start..];
  }

  lemma LineInPlace(m: seq<byte>, t: seq<byte>, start: nat, end: nat)
    requires start <= end <= |t| < |m| && m[end] == 0 && NulFree(t)
    requires forall i | start <= i < end :: m[i] == t[i]
    ensures CString(m[start..]) == Slice(t, start, end)
  {
    CStringIs(m[start..], Slice(t, start, end));
  }

  lemma Terminated(m: seq<byte>)
    requires 0 in m
    ensures var t := CString(m);
            |t| < |m| && m[|t|] == 0 && NulFree(t) && forall i | 0 <= i < |t| :: m[i] == t[i]
  {
    var t := CString(m);
  }

  lemma NothingYet(lines: seq<seq<byte>>)
    ensures lines[..0] == [] && lines[0..] == lines && LastSt([]) == [] && LastLocation([]) == []
  {
  }

  /** One line more is scanned after the others. */
  lemma OneMoreLine(lines: seq<seq<byte>>, k: nat, line: seq<byte>, rest: seq<seq<byte>>)
    requires k <= |lines| && lines[k..] == [line] + rest
    ensures k < |lines| && lines[k] == line && lines[k + 1..] == rest
    ensures LastSt(lines[..k + 1]) == match StOf(line) case Some(word) => word case None => LastSt(lines[..k])
    ensures LastLocation(lines[..k + 1]) ==
            match LocationOf(line) case Some(word) => word case None => LastLocation(lines[..k])
  {
    hide StOf, LocationOf;
    assert lines[k] == ([line] + rest)[0];
    assert lines[k + 1..] == lines[k..][1..];
    assert lines[..k + 1][..k] == lines[..k];
  }

  // ----- printing and scanning -----

  /** Every line as `strtok` leaves it: with its CR. */
  function WithCr(lines: seq<seq<byte>>): (r: seq<seq<byte>>)
    ensures |r| == |lines| && forall k | 0 <= k < |lines| :: r[k] == lines[k] + [13]
  {
    if lines == [] then [] else [lines[0] + [13]] + WithCr(lines[1..])
  }

  predicate NoBreaks(lines: seq<seq<byte>>) {
    lines == [] || (10 !in lines[0] && NoBreaks(lines[1..]))
  }

  lemma {:induction false} NoBreaksExactly(lines: seq<seq<byte>>)
    ensures NoBreaks(lines) <==> forall line <- lines :: 10 !in line
  {
    if lines != [] {
      NoBreaksExactly(lines[1..]);
      assert forall line :: line in lines <==> line == lines[0] || line in lines[1..];
    }
  }

  lemma FirstLine(t: seq<byte>, at: nat, line: seq<byte>)
    requires At(t, at, line + CRLF) && 10 !in line
    ensures SkipBreaks(t, at) == at && LineEnd(t, at) == at + |line| + 1 < |t|
    ensures Slice(t, at, at + |line| + 1) == line + [13]
  {
    hide At, SkipBreaks, LineEnd, Slice;
    OctetsOf(t, at, line + CRLF);
    AtSplit(t, at, line + [13], [10]);
    assert line + CRLF == line + [13] + [10];
    SliceAt(t, at, line + [13]);
    assert t[at] == (line + CRLF)[0];
    assert t[at + |line| + 1] == 10;
    assert forall i | at <= i < at + |line| + 1 :: t[i] != 10;
  }

  lemma {:induction false} LinesOfText(t: seq<byte>, at: nat, lines: seq<seq<byte>>)
    requires NoBreaks(lines) && At(t, at, LinesText(lines)) && at + |LinesText(lines)| == |t|
    ensures Lines(t, at) == WithCr(lines)
    decreases |lines|
  {
    hide At, Slice, SkipBreaks, LineEnd;
    if lines == [] {
      LinesEnd(t, at);
      NoLineLeft(t);
    } else {
      var line := lines[0];
      AtSplit(t, at, line + CRLF, LinesText(lines[1..]));
      FirstLine(t, at, line);
      LinesStep(t, at, at, at + |line| + 1);
      LinesOfText(t, at + |line| + 2, lines[1..]);
    }
  }

  lemma NoLineLeft(t: seq<byte>)
    ensures SkipBreaks(t, |t|) == |t|
  {
  }

  /** The last line that sets a target decides. */
  lemma {:induction false} LastStIs(lines: seq<seq<byte>>, i: nat, word: seq<byte>)
    requires i < |lines| && StOf(lines[i]) == Some(word)
    requires forall k | i < k < |lines| :: StOf(lines[k]) == None
    ensures LastSt(lines) == word
    decreases |lines|
  {
    hide StOf;
    if i + 1 < |lines| {
      LastStIs(lines[..|lines| - 1], i, word);
    }
  }

  lemma {:induction false} LastLocationIs(lines: seq<seq<byte>>, i: nat, word: seq<byte>)
    requires i < |lines| && LocationOf(lines[i]) == Some(word)
    requires forall k | i < k < |lines| :: LocationOf(lines[k]) == None
    ensures LastLocation(lines) == word
    decreases |lines|
  {
    hide LocationOf;
    if i + 1 < |lines| {
      LastLocationIs(lines[..|lines| - 1], i, word);
    }
  }

  lemma {:induction false} NoLocation(lines: seq<seq<byte>>)
    requires forall k | 0 <= k < |lines| :: LocationOf(lines[k]) == None
    ensures LastLocation(lines) == []
    decreases |lines|
  {
    hide LocationOf;
    if lines != [] {
      NoLocation(lines[..|lines| - 1]);
    }
  }

  /** A value that `%s` reads whole. */
  predicate WordOk(word: seq<byte>) {
    word != [] && NulFree(word) && forall i | 0 <= i < |word| :: !IsSpace(word[i])
  }

  lemma WordScanned(line: seq<byte>, literal: seq<byte>, word: seq<byte>)
    requires line == literal + [32] + word + [13] && WordOk(word)
    ensures ScanWord(line, literal) == Some(word)
  {
    hide At, Slice, SkipSpace, WordEnd;
    AtAll(line);
    AtSplit(line, 0, literal + [32] + word, [13]);
    AtSplit(line, 0, literal + [32], word);
    AtSplit(line, 0, literal, [32]);
    SliceAt(line, |literal| + 1, word);
    OctetsOf(line, |literal|, [32]);
    OctetsOf(line, |literal| + 1, word);
    assert IsSpace(line[|literal|]) && !IsSpace(line[|literal| + 1]) && IsSpace(line[|line| - 1]);
    assert SkipSpace(line, |literal|) == |literal| + 1;
    assert WordEnd(line, |literal| + 1) == |literal| + 1 + |word|;
  }

  lemma FoundAtStart(line: seq<byte>, pattern: seq<byte>, rest: seq<byte>)
    requires line == pattern + rest
    ensures Contains(line, pattern)
  {
    AtAll(line);
    AtSplit(line, 0, pattern, rest);
  }

  lemma StLine(target: seq<byte>)
    requires WordOk(target)
    ensures var line := ST + [32] + target + [13]; StOf(line) == Some(target) && LocationOf(line) == None
  {
    hide ST, Contains, ScanWord;
    var line := ST + [32] + target + [13];
    WordScanned(line, ST, target);
    assert line == (ST + [32]) + (target + [13]);
    FoundAtStart(line, ST + [32], target + [13]);
  }

  /** The only space of the line stands after the colon of `Location:`. */
  lemma NoStInLocation(url: seq<byte>)
    requires WordOk(url)
    ensures !Contains(LOCATION + [32] + url + [13], ST + [32])
  {
    hide At, Find;
    var line, pattern := LOCATION + [32] + url + [13], ST + [32];
    assert pattern[0] == 83 && pattern[3] == 32 && line[6] == 111;
    assert forall i | 0 <= i < |line| && line[i] == 32 :: i == 9;
    forall j | 0 <= j <= |line|
      ensures !At(line, j, pattern)
    {
      if At(line, j, pattern) {
        AtOctet(line, j, pattern, 0);
        AtOctet(line, j, pattern, 3);
      }
    }
    FindIs(line, pattern, 0, -1);
  }

  lemma LocationLine(url: seq<byte>)
    requires WordOk(url)
    ensures var line := LOCATION + [32] + url + [13]; StOf(line) == None && LocationOf(line) == Some(url)
  {
    hide LOCATION, ST, Contains, ScanWord;
    var line := LOCATION + [32] + url + [13];
    NoStInLocation(url);
    WordScanned(line, LOCATION, url);
    assert line == (LOCATION + [32]) + (url + [13]);
    FoundAtStart(line, LOCATION + [32], url + [13]);
  }

  /** A header that starts with neither name, whatever it contains. */
  predicate Inert(line: seq<byte>) {
    !At(line + [13], 0, ST) && !At(line + [13], 0, LOCATION)
  }

  lemma InertSetsNothing(line: seq<byte>)
    requires Inert(line)
    ensures StOf(line + [13]) == None && LocationOf(line + [13]) == None
  {
    hide At, Contains;
  }

  lemma NotAt(t: seq<byte>, pattern: seq<byte>)
    requires t != [] && pattern != [] && t[0] != pattern[0]
    ensures !At(t, 0, pattern)
  {
    assert |pattern| <= |t| ==> Slice(t, 0, |pattern|)[0] == t[0];
  }

  /** HOST contains "ST: ", and still sets nothing. */
  lemma HostIsInert(rest: seq<byte>)
    ensures Contains(Ascii("HOST: ") + rest, ST + [32]) && Inert(Ascii("HOST: ") + rest)
  {
    var line := Ascii("HOST: ") + rest;
    assert line[2..6] == ST + [32];
    assert At(line, 2, ST + [32]);
    assert (line + [13])[0] == 72 && ST[0] == 83 && LOCATION[0] == 76;
    NotAt(line + [13], ST);
    NotAt(line + [13], LOCATION);
  }

  lemma ResponseLines(lines: seq<seq<byte>>)
    requires NoBreaks(lines)
    ensures Lines(LinesText(lines), 0) == WithCr(lines)
  {
    AtAll(LinesText(lines));
    LinesOfText(LinesText(lines), 0, lines);
  }

  /**
  A printed response with one ST and one Location, in any order and among any other headers,
  is scanned back to their values.
  */
  lemma ResponseRoundTrip(lines: seq<seq<byte>>, i: nat, j: nat, target: seq<byte>, url: seq<byte>)
    requires NoBreaks(lines) && i < |lines| && j < |lines| && i != j && WordOk(target) && WordOk(url)
    requires lines[i] == ST + [32] + target && lines[j] == LOCATION + [32] + url
    requires forall k | 0 <= k < |lines| && k != i && k != j :: Inert(lines[k])
    ensures var found := Lines(LinesText(lines), 0); LastSt(found) == target && LastLocation(found) == url
  {
    hide Inert, StOf, LocationOf, ST, LOCATION, WordOk, LinesText, Lines, NoBreaks, LastSt, LastLocation, IsSpace;
    ResponseLines(lines);
    var found := WithCr(lines);
    StLine(target);
    LocationLine(url);
    forall k | 0 <= k < |lines| && k != i && k != j
      ensures StOf(found[k]) == None && LocationOf(found[k]) == None
    {
      InertSetsNothing(lines[k]);
    }
    LastStIs(found, i, target);
    LastLocationIs(found, j, url);
  }

  // ----- the search request -----

  function SearchLines(target: seq<byte>): seq<seq<byte>> {
    [Ascii("M-SEARCH * HTTP/1.1"), Ascii("HOST: 239.255.255.250:1900"), Ascii("MAN: \"ssdp:discover\""), Ascii("MX: 1"),
     ST + [32] + target, []]
  }

  /** The search request octet by octet. */
  lemma SearchOctets(target: seq<byte>)
    ensures LinesText(SearchLines(target)) ==
            [] + (Ascii("M-SEARCH * HTTP/1.1") + [13, 10]) + (Ascii("HOST: 239.255.255.250:1900") + [13, 10])
            + (Ascii("MAN: \"ssdp:discover\"") + [13, 10]) + (Ascii("MX: 1") + [13, 10])
            + ([83, 84, 58] + [32] + target + [13, 10]) + ([] + [13, 10])
  {
    hide Ascii, ST, LinesText;
    HeaderNames();
    SixLines(SearchLines(target));
  }

  /** Prints one more line behind the first `len` octets, and a NUL behind it. */
  method PrintLine(out: array<byte>, len: nat, line: seq<byte>) returns (next: nat)
    requires len + |line| + 2 < out.Length
    modifies out
    ensures next == len + |line| + 2
    ensures out[..next] == old(out[..len]) + (line + CRLF) && out[next] == 0
  {
    var text := line + CRLF;
    forall i | 0 <= i < |text| {
      out[len + i] := text[i];
    }
    next := len + |text|;
    out[next] := 0;
  }

  /** `create_ssdp_message`: the request of the discovery, and its length. */
  method CreateSsdpMessage(out: array<byte>, target: seq<byte>) returns (len: nat)
    requires |LinesText(SearchLines(target))| < out.Length
    modifies out
    ensures len == |LinesText(SearchLines(target))|
    ensures out[..len] == LinesText(SearchLines(target)) && out[len] == 0
  {
    hide LinesText, Ascii, ST, CRLF;
    SixLines(SearchLines(target));
    len := 0;
    len := PrintLine(out, len, Ascii("M-SEARCH * HTTP/1.1"));
    len := PrintLine(out, len, Ascii("HOST: 239.255.255.250:1900"));
    len := PrintLine(out, len, Ascii("MAN: \"ssdp:discover\""));
    len := PrintLine(out, len, Ascii("MX: 1"));
    len := PrintLine(out, len, ST + [32] + target);
    len := PrintLine(out, len, []);
  }

  /** A response made of the search request itself would name the target and no location. */
  lemma SearchNamesItsTarget(target: seq<byte>)
    requires WordOk(target)
    ensures var found := Lines(LinesText(SearchLines(target)), 0);
            LastSt(found) == target && LastLocation(found) == []
  {
    hide StOf, LocationOf, ST, LOCATION, LinesText, Lines, Inert;
    var lines := SearchLines(target);
    SearchIsInert(target);
    ResponseLines(lines);
    var found := WithCr(lines);
    StLine(target);
    forall k | 0 <= k < 6 && k != 4
      ensures StOf(found[k]) == None && LocationOf(found[k]) == None
    {
      InertSetsNothing(lines[k]);
    }
    LastStIs(found, 4, target);
    NoLocation(found);
  }

  lemma SearchLiteral0()
    ensures var l := Ascii("M-SEARCH * HTTP/1.1"); l != [] && l[0] == 77 && 10 !in l
  {
  }

  lemma SearchLiteral1()
    ensures var l := Ascii("HOST: 239.255.255.250:1900"); l != [] && l[0] == 72 && 10 !in l
  {
  }

  lemma SearchLiteral2()
    ensures var l := Ascii("MAN: \"ssdp:discover\""); l != [] && l[0] == 77 && 10 !in l
  {
  }

  lemma SearchLiterals()
    ensures var l := SearchLines([]);
            && l[0] != [] && l[0][0] == 77 && l[1] != [] && l[1][0] == 72
            && l[2] != [] && l[2][0] == 77 && l[3] != [] && l[3][0] == 77
            && 10 !in l[0] && 10 !in l[1] && 10 !in l[2] && 10 !in l[3] && 10 !in ST + [32]
  {
    hide Ascii;
    SearchLiteral0();
    SearchLiteral1();
    SearchLiteral2();
    SearchLiteral3();
  }

  lemma SearchLiteral3()
    ensures var l := Ascii("MX: 1"); l != [] && l[0] == 77 && 10 !in l
    ensures 10 !in ST
  {
  }

  lemma InertByFirst(line: seq<byte>)
    requires line == [] || line[0] in {72, 77}
    ensures Inert(line)
  {
    assert ST[0] == 83 && LOCATION[0] == 76;
    NotAt(line + [13], ST);
    NotAt(line + [13], LOCATION);
  }

  lemma SearchIsInert(target: seq<byte>)
    requires WordOk(target)
    ensures var lines := SearchLines(target);
            NoBreaks(lines) && Inert(lines[0]) && Inert(lines[1]) && Inert(lines[2]) && Inert(lines[3]) && Inert(lines[5])
  {
    hide Ascii, Inert, ST, LOCATION;
    var lines := SearchLines(target);
    SearchLiterals();
    InertByFirst(lines[0]);
    InertByFirst(lines[1]);
    InertByFirst(lines[2]);
    InertByFirst(lines[3]);
    InertByFirst(lines[5]);
    WordHasNoBreak(target);
    NoBreaksOfSix(lines);
  }

  lemma WordHasNoBreak(word: seq<byte>)
    requires WordOk(word)
    ensures 10 !in word
  {
  }

  lemma NoBreaksOfSix(l: seq<seq<byte>>)
    requires |l| == 6 && forall k | 0 <= k < 6 :: 10 !in l[k]
    ensures NoBreaks(l)
  {
    assert l[1..][1..] == l[2..] && l[2..][1..] == l[3..] && l[3..][1..] == l[4..] && l[4..][1..] == l[5..] && l[5..][1..] == [];
    assert NoBreaks(l[5..]) && NoBreaks(l[4..]) && NoBreaks(l[3..]) && NoBreaks(l[2..]) && NoBreaks(l[1..]);
  }

  lemma SixLines(l: seq<seq<byte>>)
    requires |l| == 6 && l[5] == []
    ensures LinesText(l) == [] + (l[0] + CRLF) + (l[1] + CRLF) + (l[2] + CRLF) + (l[3] + CRLF) + (l[4] + CRLF) + ([] + CRLF)
    ensures |CRLF| == 2
  {
    assert l[1..][1..] == l[2..] && l[2..][1..] == l[3..] && l[3..][1..] == l[4..] && l[4..][1..] == l[5..] && l[5..][1..] == [];
    assert LinesText(l[5..]) == CRLF + [];
    assert LinesText(l[4..]) == l[4] + CRLF + LinesText(l[5..]);
    assert LinesText(l[3..]) == l[3] + CRLF + LinesText(l[4..]);
    assert LinesText(l[2..]) == l[2] + CRLF + LinesText(l[3..]);
    assert LinesText(l[1..]) == l[1] + CRLF + LinesText(l[2..]);
  }
}
