/**
The response half of UI/http_client.c: what one attempt makes of the octets received so
far, and why the answer does not depend on how TCP cut the response.
*/
module HttpResponse {
  import opened Bytes
  import opened CText

  const CONTENT_LENGTH: seq<byte> := Ascii("Content-Length:")
  const CONTENT_LENGTH_UPPER: seq<byte> := Ascii("CONTENT-LENGTH:")
  const BLANK_LINE: seq<byte> := [13, 10, 13, 10]

  // ----- one attempt -----

  /** `sscanf(t, "HTTP/1.%1d %3d ...")`: the status, if both numbers were read. */
  function ScanStatus(t: seq<byte>): Option<int> {
    if !At(t, 0, Ascii("HTTP/1.")) then None
    else
      match ScanInt(t, 7, 1)
      case None => None
      case Some((_, next)) =>
        match ScanInt(t, next, 3)
        case None => None
        case Some((status, _)) => Some(status)
  }

  /** Where the first spelling of the header stands, or else the second, or -1. */
  function FindLength(t: seq<byte>): (r: int)
    ensures r == -1 || 0 <= r <= |t|
  {
    var at := Find(t, CONTENT_LENGTH, 0);
    if at != -1 then at else Find(t, CONTENT_LENGTH_UPPER, 0)
  }

  /** The two `sscanf` of the length, with the conversion of `int` to `uint32_t`. */
  function ScanLength(t: seq<byte>, at: nat): Option<uint32>
    requires at <= |t|
  {
    if At(t, at, CONTENT_LENGTH) || At(t, at, CONTENT_LENGTH_UPPER) then
      match ScanInt(t, at + 15, |t|)
      case None => None
      case Some((n, _)) => Some(n % 0x1_0000_0000)
    else None
  }

  datatype Attempt = More | Done(status: uint16, body: Option<seq<byte>>)

  /** One turn of the loop on the text received so far. */
  function Try(t: seq<byte>): Attempt {
    match ScanStatus(t)
    case None => More
    case Some(status) =>
      var at := FindLength(t);
      if at == -1 then More
      else
        match ScanLength(t, at)
        case None => More
        case Some(length) =>
          if length == 0 then Done(status % 0x1_0000, None)
          else
            var blank := Find(t, BLANK_LINE, at);
            if blank == -1 || |t| - (blank + 4) < length then More
            else Done(status % 0x1_0000, Some(Slice(t, blank + 4, |t|)))
  }

  /** `http_rsp`; a null body is None. */
  datatype Rsp = Rsp(errcode: uint16, body: Option<seq<byte>>)

  /** The status field, which starts at 0, after the scans of a text. */
  function StatusRead(t: seq<byte>): uint16 {
    match ScanStatus(t)
    case None => 0
    case Some(n) => n % 0x1_0000
  }

  function BodyRead(t: seq<byte>): Option<seq<byte>> {
    match Try(t)
    case Done(_, body) => body
    case More => None
  }

  /** What the caller gets when the loop has ended with this text, be it complete or not. */
  function Outcome(t: seq<byte>): Option<Rsp> {
    if StatusRead(t) == 0 then None else Some(Rsp(StatusRead(t), BodyRead(t)))
  }

  // ----- responses -----

  /**
  A response of RFC 1945 section 6: `more` is the rest of the status line and the headers
  before Content-Length, `after` is what follows its digits up to the blank line.
  */
  datatype Response = Response(
    minor: byte, status: nat, more: seq<byte>,
    upper: bool, gap: seq<byte>, declared: nat, after: seq<byte>,
    body: seq<byte>)

  function Digits3(n: nat): (r: seq<byte>)
    requires n < 1000
    ensures |r| == 3
  {
    [48 + n / 100, 48 + n / 10 % 10, 48 + n % 10]
  }

  function StatusText(r: Response): seq<byte>
    requires r.status < 1000
  {
    Ascii("HTTP/1.") + [r.minor, 32] + Digits3(r.status)
  }

  function Name(r: Response): seq<byte> {
    if r.upper then CONTENT_LENGTH_UPPER else CONTENT_LENGTH
  }

  function Head(r: Response): seq<byte>
    requires r.status < 1000
  {
    StatusText(r) + r.more
  }

  function LengthText(r: Response): seq<byte> {
    Name(r) + r.gap + Dec(r.declared) + r.after
  }

  function Header(r: Response): seq<byte>
    requires r.status < 1000
  {
    Head(r) + LengthText(r)
  }

  function Text(r: Response): seq<byte>
    requires r.status < 1000
  {
    Header(r) + BLANK_LINE + r.body
  }

  /**
  The status has three digits, the header name is not preceded by a text that looks like it,
  its digits end where they end, and the blank line is the first one.
  */
  predicate WellFormed(r: Response) {
    && IsDigit(r.minor) && 0 < r.status < 1000
    && r.declared < 0x8000_0000
    && NulFree(Text(r))
    && Find(Head(r) + Name(r), Name(r), 0) == |Head(r)|
    && (if r.upper then Find(Text(r), CONTENT_LENGTH, 0) == -1
        else Find(Head(r) + Name(r), CONTENT_LENGTH_UPPER, 0) == -1)
    && (forall i | 0 <= i < |r.gap| :: IsSpace(r.gap[i]))
    && (r.after != [] ==> !IsDigit(r.after[0]))
    && Find(Header(r) + BLANK_LINE, BLANK_LINE, |Head(r)|) == |Header(r)|
  }

  // ----- offsets -----

  function DigitsAt(r: Response): nat
    requires r.status < 1000
  {
    |Head(r)| + 15 + |r.gap|
  }

  function BodyAt(r: Response): nat
    requires r.status < 1000
  {
    |Header(r)| + 4
  }

  lemma Layout(r: Response)
    requires r.status < 1000
    ensures |Name(r)| == 15 && |StatusText(r)| == 12 && |Head(r)| == 12 + |r.more|
    ensures |Text(r)| == BodyAt(r) + |r.body|
    ensures DigitsAt(r) + |Dec(r.declared)| + |r.after| + 4 == BodyAt(r)
    ensures At(Text(r), 0, Head(r)) && At(Text(r), 0, Head(r) + Name(r)) && At(Text(r), 0, StatusText(r))
    ensures At(Text(r), |Head(r)|, Name(r)) && At(Text(r), |Head(r)| + 15, r.gap)
    ensures At(Text(r), DigitsAt(r), Dec(r.declared)) && At(Text(r), DigitsAt(r) + |Dec(r.declared)|, r.after + BLANK_LINE)
    ensures At(Text(r), 0, Header(r) + BLANK_LINE) && At(Text(r), BodyAt(r), r.body)
  {
    hide Slice, Cut, At, Ascii, Dec, Digits3;
    var t := Text(r);
    AtAll(t);
    AtSplit(t, 0, Header(r) + BLANK_LINE, r.body);
    AtSplit(t, 0, Header(r), BLANK_LINE);
    AtSplit(t, 0, Head(r), LengthText(r));
    AtSplit(t, 0, StatusText(r), r.more);
    var h := |Head(r)|;
    AtSplit(t, h, Name(r) + r.gap + Dec(r.declared), r.after);
    AtSplit(t, h, Name(r) + r.gap, Dec(r.declared));
    AtSplit(t, h, Name(r), r.gap);
    AtSplit(t, 0, Head(r), Name(r));
    AtSplit(t, DigitsAt(r) + |Dec(r.declared)|, r.after, BLANK_LINE);
  }

  // ----- each scan on a prefix -----

  lemma StatusScan(t: seq<byte>, r: Response)
    requires IsDigit(r.minor) && r.status < 1000 && At(t, 0, StatusText(r))
    ensures ScanStatus(t) == Some(r.status)
  {
    hide Slice, Cut, At, Ascii, ScanInt;
    var literal, rest := Ascii("HTTP/1."), [r.minor, 32] + Digits3(r.status);
    assert StatusText(r) == literal + rest;
    AtSplit(t, 0, literal, rest);
    OctetsOf(t, 7, rest);
    ScanIntIs(t, 7, 1, 7, 8);
    ScanIntIs(t, 8, 3, 9, 12);
    ThreeDigits(t, r.status);
  }

  lemma ThreeDigits(t: seq<byte>, n: nat)
    requires n < 1000 && 12 <= |t|
    requires t[9] == 48 + n / 100 && t[10] == 48 + n / 10 % 10 && t[11] == 48 + n % 10
    ensures ValueAt(t, 9, 12) == n
  {
    assert IsDigit(t[9]) && IsDigit(t[10]) && IsDigit(t[11]);
    assert ValueAt(t, 9, 9) == 0;
    assert ValueAt(t, 9, 10) == n / 100;
    DecimalSplit(n);
    assert ValueAt(t, 9, 11) == n / 10;
  }

  lemma DecimalSplit(n: nat)
    ensures n / 100 * 10 + n / 10 % 10 == n / 10 && n / 10 * 10 + n % 10 == n
  {
    assert n / 100 == n / 10 / 10;
  }

  /** The header name is found once it is there, and nothing is before. */
  lemma LengthFound(r: Response, n: nat)
    requires WellFormed(r) && n <= |Text(r)|
    ensures FindLength(Cut(Text(r), n)) == if |Head(r)| + 15 <= n then |Head(r)| else -1
  {
    hide Slice, Cut, At, Find, Text, Head, Header, Ascii, NulFree;
    Layout(r);
    var t := Text(r);
    FindFirst(t, Head(r) + Name(r), Name(r), 0);
    FindInPrefix(t, n, Name(r), 0);
    if r.upper {
      FindInPrefix(t, n, CONTENT_LENGTH, 0);
    } else if n < |Head(r)| + 15 {
      FindNoneEarlier(t, Head(r) + Name(r), CONTENT_LENGTH_UPPER, n);
    }
  }

  lemma LeadIsPrefix(t: seq<byte>, lead: seq<byte>)
    requires At(t, 0, lead)
    ensures |lead| <= |t| && Cut(t, |lead|) == lead
  {
  }

  /** As long as the name itself is not complete, the other spelling is not found either. */
  lemma FindNoneEarlier(t: seq<byte>, lead: seq<byte>, pattern: seq<byte>, n: nat)
    requires At(t, 0, lead) && Find(lead, pattern, 0) == -1 && n <= |lead|
    ensures Find(Cut(t, n), pattern, 0) == -1
  {
    LeadIsPrefix(t, lead);
    assert Cut(t, n) == Cut(lead, n);
    FindInPrefix(lead, n, pattern, 0);
  }

  /** The first occurrence in a leading part is the first in the whole. */
  lemma FindFirst(t: seq<byte>, lead: seq<byte>, pattern: seq<byte>, from: nat)
    requires At(t, 0, lead) && from <= |lead| && Find(lead, pattern, from) != -1
    ensures Find(t, pattern, from) == Find(lead, pattern, from)
  {
    LeadIsPrefix(t, lead);
    FindInPrefix(t, |lead|, pattern, from);
  }

  /** The digits as far as they have arrived: none yet, a positive number, or the declared length. */
  lemma LengthScan(r: Response, n: nat)
    requires WellFormed(r) && |Head(r)| + 15 <= n <= |Text(r)|
    ensures var length := ScanLength(Cut(Text(r), n), |Head(r)|);
            if n <= DigitsAt(r) then length == None
            else if n < DigitsAt(r) + |Dec(r.declared)| then length.Some? && 0 < length.value
            else length == Some(r.declared)
  {
    hide Slice, Cut, At, Find, Text, Head, Header, Ascii, NulFree, Dec, ScanInt, LengthText, StatusText;
    Layout(r);
    var t, d0 := Text(r), DigitsAt(r);
    AtPrefix(t, n, |Head(r)|, Name(r));
    OctetsOf(t, |Head(r)| + 15, r.gap);
    OctetsOf(t, d0 + |Dec(r.declared)|, r.after + BLANK_LINE);
    DecAt(t, d0, r.declared);
    ShortDec(r.declared);
    ScanNumber(t, |Head(r)| + 15, d0, d0 + |Dec(r.declared)|, n);
  }

  /** `%d` on the first `n` octets of a text whose number stands from `d0` to `d1`. */
  lemma ScanNumber(t: seq<byte>, from: nat, d0: nat, d1: nat, n: nat)
    requires from <= d0 < d1 <= |t| && from <= n <= |t|
    requires forall i | from <= i < d0 :: IsSpace(t[i])
    requires forall i | d0 <= i < d1 :: IsDigit(t[i])
    requires d1 < |t| ==> !IsDigit(t[d1])
    requires t[d0] == 48 ==> d1 == d0 + 1
    ensures var s := ScanInt(Cut(t, n), from, n);
            if n <= d0 then s == None
            else if n < d1 then s.Some? && 0 < s.value.0 <= ValueAt(t, d0, d1)
            else s.Some? && s.value.0 == ValueAt(t, d0, d1)
  {
    hide ScanInt, ValueAt;
    if n <= d0 {
      ScanIntNothing(Cut(t, n), from, n);
    } else {
      var end := if n < d1 then n else d1;
      ScanIntIs(Cut(t, n), from, n, d0, end);
      ValueOfPrefix(t, n, d0, end);
      if n < d1 {
        ValueMonotone(t, d0, n, d1);
        ValuePositive(t, d0, n);
      }
    }
  }

  lemma ShortDec(n: nat)
    ensures 1 < |Dec(n)| ==> Dec(n)[0] != 48
  {
  }

  lemma BlankFound(r: Response, n: nat)
    requires WellFormed(r) && |Head(r)| <= n <= |Text(r)|
    ensures Find(Cut(Text(r), n), BLANK_LINE, |Head(r)|) == if BodyAt(r) <= n then BodyAt(r) - 4 else -1
  {
    hide Slice, Cut, At, Find, Text, Head, Ascii, NulFree, Dec;
    Layout(r);
    FindFirst(Text(r), Header(r) + BLANK_LINE, BLANK_LINE, |Head(r)|);
    FindInPrefix(Text(r), n, BLANK_LINE, |Head(r)|);
  }

  // ----- segmentation -----

  /** What the loop makes of the first `n` octets. */
  function Expected(r: Response, n: nat): Attempt
    requires r.status < 1000 && n <= |Text(r)|
  {
    if r.declared == 0 then
      if n <= DigitsAt(r) then More else Done(r.status, None)
    else if n < BodyAt(r) + r.declared then More
    else Done(r.status, Some(Slice(Text(r), BodyAt(r), n)))
  }

  lemma TryWithoutLength(t: seq<byte>)
    requires FindLength(t) == -1
    ensures Try(t) == More
  {
  }

  lemma TailOfCut(t: seq<byte>, from: nat, n: nat)
    requires from <= n <= |t|
    ensures Slice(Cut(t, n), from, n) == Slice(t, from, n)
  {
  }

  lemma TryIs(t: seq<byte>, status: nat, at: nat)
    requires ScanStatus(t) == Some(status) && 0 < status < 1000 && FindLength(t) == at <= |t|
    ensures Try(t) ==
            match ScanLength(t, at)
            case None => More
            case Some(length) =>
              if length == 0 then Done(status, None)
              else
                var blank := Find(t, BLANK_LINE, at);
                if blank == -1 || |t| - (blank + 4) < length then More
                else Done(status, Some(Slice(t, blank + 4, |t|)))
  {
    hide ScanStatus, FindLength, ScanLength, Find;
  }

  /**
  However little of the response has arrived, the attempt either asks for more or gives the
  status and what has come of the body: a status line, a number or a body that is cut short
  never ends the loop.
  */
  lemma TryPrefix(r: Response, n: nat)
    requires WellFormed(r) && n <= |Text(r)|
    ensures Try(Cut(Text(r), n)) == Expected(r, n)
  {
    hide Slice, Cut, At, Find, Text, Head, Header, Ascii, NulFree, Dec, ScanStatus, FindLength, ScanLength, LengthText, StatusText, Try;
    Layout(r);
    LengthFound(r, n);
    var t := Cut(Text(r), n);
    if n < |Head(r)| + 15 {
      TryWithoutLength(t);
    } else {
      AtPrefix(Text(r), n, 0, StatusText(r));
      StatusScan(t, r);
      TryIs(t, r.status, |Head(r)|);
      LengthScan(r, n);
      BlankFound(r, n);
      if BodyAt(r) <= n {
        TailOfCut(Text(r), BodyAt(r), n);
      }
    }
  }

  /** What a caller should get. */
  function Answer(r: Response): Attempt
    requires r.status < 1000
  {
    Done(r.status, if r.body == [] then None else Some(r.body))
  }

  /**
  A response whose body has the declared length gives its own status and body on every cut
  that ends the loop, and does end the loop once it is complete.
  */
  lemma CompleteResponse(r: Response, n: nat)
    requires WellFormed(r) && r.declared == |r.body| && n <= |Text(r)|
    ensures Try(Cut(Text(r), n)) in {More, Answer(r)}
    ensures n == |Text(r)| ==> Try(Cut(Text(r), n)) == Answer(r)
  {
    hide Slice, Cut, Try, Text, Head, Header, Dec, Find;
    Layout(r);
    TryPrefix(r, n);
    BodyOf(r);
  }

  lemma BodyOf(r: Response)
    requires r.status < 1000
    ensures |Text(r)| == BodyAt(r) + |r.body| && Slice(Text(r), BodyAt(r), |Text(r)|) == r.body
  {
    hide Header;
  }

  /** All cuts that end the loop give the same answer. */
  ghost predicate SegmentationIndependent(r: Response)
    requires r.status < 1000
  {
    forall m: nat, n: nat | m <= |Text(r)| && n <= |Text(r)| ::
      Try(Cut(Text(r), m)).Done? && Try(Cut(Text(r), n)).Done? ==> Try(Cut(Text(r), m)) == Try(Cut(Text(r), n))
  }

  /** That is so exactly when no more follows the header than was declared (or nothing was). */
  lemma SegmentationExact(r: Response)
    requires WellFormed(r)
    ensures SegmentationIndependent(r) <==> r.declared == 0 || |r.body| <= r.declared
  {
    hide Slice, Cut, Try, Text, Head, Header, Dec, Find, At, LengthText;
    Layout(r);
    forall n: nat | n <= |Text(r)|
      ensures Try(Cut(Text(r), n)) == Expected(r, n)
    {
      TryPrefix(r, n);
    }
    if 0 < r.declared < |r.body| {
      TooMuchBody(r);
    }
  }

  /** With more body than declared, the cut after the declared length and the whole differ. */
  lemma TooMuchBody(r: Response)
    requires WellFormed(r) && 0 < r.declared < |r.body|
    ensures !SegmentationIndependent(r)
  {
    hide Slice, Cut, Try, Text, Head, Header, Dec, Find, At;
    Layout(r);
    var m, n := BodyAt(r) + r.declared, |Text(r)|;
    TryPrefix(r, m);
    TryPrefix(r, n);
    assert |Slice(Text(r), BodyAt(r), m)| != |Slice(Text(r), BodyAt(r), n)|;
  }

  // ----- connections that end early -----

  /** A status once scanned stays scanned when more of the text arrives. */
  lemma StatusStays(t: seq<byte>, n: nat)
    requires n <= |t| && ScanStatus(Cut(t, n)).Some?
    ensures ScanStatus(t).Some?
  {
    hide ScanInt, At, Cut, Ascii;
    AtPrefix(t, n, 0, Ascii("HTTP/1."));
    ScanIntGrows(t, n, 7, 1);
    ScanIntGrows(t, n, ScanInt(t, 7, 1).value.1, 3);
  }

  /** The status digits that stand in the first `n` octets of a response, as a number. */
  function StatusSoFar(r: Response, n: nat): nat {
    if n < 10 then 0 else if n == 10 then r.status / 100 else if n == 11 then r.status / 10 else r.status
  }

  lemma StatusPrefix(r: Response, n: nat)
    requires WellFormed(r) && n <= |Text(r)|
    ensures StatusRead(Cut(Text(r), n)) == StatusSoFar(r, n)
  {
    hide At, Cut, Ascii, Text, ScanInt, WellFormed, Slice;
    StatusBounds(r);
    Layout(r);
    var t := Cut(Text(r), n);
    AtPrefix(Text(r), n, 0, StatusText(r));
    if 12 <= n {
      StatusScan(t, r);
    } else {
      assert StatusText(r) == Ascii("HTTP/1.") + ([r.minor, 32] + Digits3(r.status));
      AtSplit(Text(r), 0, Ascii("HTTP/1."), [r.minor, 32] + Digits3(r.status));
      AtPrefix(Text(r), n, 0, Ascii("HTTP/1."));
      if 7 <= n {
        StatusOctets(r, n);
        FewDigits(t, r.minor, r.status);
      }
    }
  }

  lemma StatusBounds(r: Response)
    requires WellFormed(r)
    ensures IsDigit(r.minor) && 0 < r.status < 1000
  {
  }

  lemma StatusOctets(r: Response, n: nat)
    requires r.status < 1000 && 7 <= n < 12 && n <= |Text(r)|
    ensures var t := Cut(Text(r), n);
            && (7 < n ==> t[7] == r.minor) && (8 < n ==> t[8] == 32)
            && (9 < n ==> t[9] == 48 + r.status / 100) && (10 < n ==> t[10] == 48 + r.status / 10 % 10)
  {
    hide Ascii, Text;
    Layout(r);
    OctetsOf(Text(r), 0, StatusText(r));
  }

  /** A status line cut inside its numbers. */
  lemma FewDigits(t: seq<byte>, minor: byte, status: nat)
    requires 7 <= |t| < 12 && IsDigit(minor) && status < 1000
    requires 7 < |t| ==> t[7] == minor
    requires 8 < |t| ==> t[8] == 32
    requires 9 < |t| ==> t[9] == 48 + status / 100
    requires 10 < |t| ==> t[10] == 48 + status / 10 % 10
    ensures StatusRead(t) == if |t| < 10 || !At(t, 0, Ascii("HTTP/1.")) then 0 else if |t| == 10 then status / 100 else status / 10
  {
    hide At, Ascii, ScanInt, ValueAt;
    if |t| == 7 {
      ScanIntNothing(t, 7, 1);
    } else {
      ScanIntIs(t, 7, 1, 7, 8);
      if |t| < 10 {
        ScanIntNothing(t, 8, 3);
      } else {
        ScanIntIs(t, 8, 3, 9, |t|);
        ValueOfTwo(t, 9);
      }
    }
  }

  lemma ValueOfTwo(t: seq<byte>, at: nat)
    requires at < |t| <= at + 2 && forall i | at <= i < |t| :: IsDigit(t[i])
    ensures ValueAt(t, at, |t|) == if |t| == at + 1 then Digit(t[at]) else 10 * Digit(t[at]) + Digit(t[at + 1])
  {
    assert ValueAt(t, at, at) == 0;
    assert ValueAt(t, at, at + 1) == Digit(t[at]);
  }

  /** What a caller should get of a response. */
  function Whole(r: Response): Option<Rsp>
    requires r.status < 0x1_0000
  {
    Some(Rsp(r.status, if r.body == [] then None else Some(r.body)))
  }

  /**
  What the caller gets when the connection ends after `n` octets of a response whose body has
  the declared length: the digits of the status that arrived, without a body unless all of it
  arrived.
  */
  lemma OutcomeOfPrefix(r: Response, n: nat)
    requires WellFormed(r) && r.declared == |r.body| && n <= |Text(r)|
    ensures Outcome(Cut(Text(r), n)) ==
            if StatusSoFar(r, n) == 0 then None
            else Some(Rsp(StatusSoFar(r, n), if n == |Text(r)| && r.body != [] then Some(r.body) else None))
  {
    hide Try, StatusRead, Text, Cut, WellFormed;
    StatusBounds(r);
    StatusPrefix(r, n);
    CompleteResponse(r, n);
    TooShort(r, n);
  }

  lemma TooShort(r: Response, n: nat)
    requires WellFormed(r) && r.declared == |r.body| && n <= |Text(r)|
    ensures n < |Text(r)| ==> BodyRead(Cut(Text(r), n)) == None
    ensures n == |Text(r)| ==> 12 <= n
  {
    hide Try, Text, Cut, Find, Header, Head, Dec, Slice;
    Layout(r);
    TryPrefix(r, n);
  }

  /**
  The caller gets the response or nothing iff no digit of the status but leading zeros has
  arrived, or all three have and there is no body, or the response has arrived whole.  In all
  other cases it gets a wrong status, or the right one without the body.
  */
  lemma EarlyEndExact(r: Response, n: nat)
    requires WellFormed(r) && r.declared == |r.body| && n <= |Text(r)|
    ensures Outcome(Cut(Text(r), n)) in {None, Whole(r)} <==>
            || n < 10 || (n == 10 && r.status < 100) || (n == 11 && r.status < 10)
            || (12 <= n && r.body == []) || n == |Text(r)|
    ensures n == |Text(r)| ==> Outcome(Cut(Text(r), n)) == Whole(r)
  {
    hide Outcome, Text, Cut, WellFormed;
    StatusBounds(r);
    OutcomeOfPrefix(r, n);
    TooShort(r, n);
  }

  // ----- a family of responses to which all this applies -----

  /** A status line, then Content-Length as the only header, true or not. */
  function Plain(upper: bool, minor: byte, status: nat, reason: seq<byte>, declared: nat, body: seq<byte>): Response {
    Response(minor, status, [32] + reason + [13, 10], upper, [32], declared, [], body)
  }

  /** Octet by octet: the status line, "Content-Length: " or "CONTENT-LENGTH: ", a blank line and the body. */
  lemma PlainOctets(upper: bool, minor: byte, status: nat, reason: seq<byte>, declared: nat, body: seq<byte>)
    requires status < 1000
    ensures Text(Plain(upper, minor, status, reason, declared, body)) ==
            ([72, 84, 84, 80, 47, 49, 46] + [minor, 32] + [48 + status / 100, 48 + status / 10 % 10, 48 + status % 10] + ([32] + reason + [13, 10]))
            + ((if upper then [67, 79, 78, 84, 69, 78, 84, 45, 76, 69, 78, 71, 84, 72, 58]
                else [67, 111, 110, 116, 101, 110, 116, 45, 76, 101, 110, 103, 116, 104, 58]) + [32] + Dec(declared) + [])
            + [13, 10, 13, 10] + body
  {
    hide Ascii, Dec, CONTENT_LENGTH, CONTENT_LENGTH_UPPER;
    NameOctets();
    UpperNameOctets();
    ProtocolOctets();
  }

  lemma NameOctets()
    ensures CONTENT_LENGTH == [67, 111, 110, 116, 101, 110, 116, 45, 76, 101, 110, 103, 116, 104, 58]
  {
  }

  lemma UpperNameOctets()
    ensures CONTENT_LENGTH_UPPER == [67, 79, 78, 84, 69, 78, 84, 45, 76, 69, 78, 71, 84, 72, 58]
  {
  }

  lemma ProtocolOctets()
    ensures Ascii("HTTP/1.") == [72, 84, 84, 80, 47, 49, 46]
  {
  }

  lemma NulFreeAppend(x: seq<byte>, y: seq<byte>)
    requires NulFree(x) && NulFree(y)
    ensures NulFree(x + y)
  {
  }

  lemma NameLiterals()
    ensures NulFree(CONTENT_LENGTH) && 13 !in CONTENT_LENGTH && |CONTENT_LENGTH| == 15
    ensures CONTENT_LENGTH[0] == 67 && CONTENT_LENGTH[1] == 111
  {
  }

  lemma UpperNameLiterals()
    ensures NulFree(CONTENT_LENGTH_UPPER) && |CONTENT_LENGTH_UPPER| == 15
    ensures CONTENT_LENGTH_UPPER[0] == 67 && CONTENT_LENGTH_UPPER[1] == 79
    ensures 67 !in CONTENT_LENGTH_UPPER[1..] && 13 !in CONTENT_LENGTH_UPPER
  {
  }

  lemma LiteralsNulFree()
    ensures NulFree(Ascii("HTTP/1.")) && NulFree(CONTENT_LENGTH) && NulFree(CONTENT_LENGTH_UPPER) && NulFree(BLANK_LINE)
    ensures |CONTENT_LENGTH| == |CONTENT_LENGTH_UPPER| == 15
    ensures 67 !in Ascii("HTTP/1.") && CONTENT_LENGTH[0] == 67 && 13 !in CONTENT_LENGTH && 13 !in CONTENT_LENGTH_UPPER
    ensures CONTENT_LENGTH[1] != CONTENT_LENGTH_UPPER[1] && CONTENT_LENGTH_UPPER[0] == 67
  {
    hide CONTENT_LENGTH, CONTENT_LENGTH_UPPER;
    NameLiterals();
    UpperNameLiterals();
  }

  lemma NumbersNulFree(minor: byte, status: nat, declared: nat)
    requires IsDigit(minor) && status < 1000
    ensures NulFree([minor, 32] + Digits3(status)) && 67 !in [minor, 32] + Digits3(status)
    ensures NulFree(Dec(declared)) && 13 !in Dec(declared)
  {
    hide Dec;
    assert forall i | 0 <= i < |Dec(declared)| :: IsDigit(Dec(declared)[i]);
  }

  lemma TextNulFree(r: Response)
    requires IsDigit(r.minor) && r.status < 1000
    requires NulFree(r.more) && NulFree(r.gap) && NulFree(r.after) && NulFree(r.body)
    ensures NulFree(Text(r))
  {
    hide Ascii, Digits3, Dec, NulFree, CONTENT_LENGTH, CONTENT_LENGTH_UPPER, BLANK_LINE;
    LiteralsNulFree();
    NumbersNulFree(r.minor, r.status, r.declared);
    var literal, numbers := Ascii("HTTP/1."), [r.minor, 32] + Digits3(r.status);
    assert StatusText(r) == literal + numbers;
    NulFreeAppend(literal, numbers);
    NulFreeAppend(StatusText(r), r.more);
    NulFreeAppend(Name(r), r.gap);
    NulFreeAppend(Name(r) + r.gap, Dec(r.declared));
    NulFreeAppend(Name(r) + r.gap + Dec(r.declared), r.after);
    NulFreeAppend(Head(r), LengthText(r));
    NulFreeAppend(Header(r), BLANK_LINE);
    NulFreeAppend(Header(r) + BLANK_LINE, r.body);
  }

  /** An occurrence of the pattern needs its first octet and all of its length. */
  lemma FindOther(head: seq<byte>, name: seq<byte>, pattern: seq<byte>)
    requires |name| == |pattern| == 15 && pattern[0] !in head && name[1] != pattern[1]
    ensures Find(head + name, pattern, 0) == -1
  {
    hide At, Find;
    var t := head + name;
    forall j | 0 <= j <= |t|
      ensures !At(t, j, pattern)
    {
      if At(t, j, pattern) {
        AtOctet(t, j, pattern, 0);
        AtOctet(t, j, pattern, 1);
      }
    }
    FindIs(t, pattern, 0, -1);
  }

  lemma PlainIsWellFormed(upper: bool, minor: byte, status: nat, reason: seq<byte>, declared: nat, body: seq<byte>)
    requires IsDigit(minor) && 0 < status < 1000 && declared < 0x8000_0000
    requires NulFree(reason) && NulFree(body) && 67 !in reason && (upper ==> 67 !in body)
    ensures WellFormed(Plain(upper, minor, status, reason, declared, body))
  {
    hide At, Find, Ascii, Digits3, Dec, NulFree, Text, CONTENT_LENGTH, CONTENT_LENGTH_UPPER, BLANK_LINE;
    var r := Plain(upper, minor, status, reason, declared, body);
    LiteralsNulFree();
    NumbersNulFree(minor, status, declared);
    PlainMore(reason);
    TextNulFree(r);
    assert StatusText(r) == Ascii("HTTP/1.") + ([minor, 32] + Digits3(status));
    assert 67 !in Head(r);
    FoundAtEnd([], Head(r), Name(r));
    assert [] + Head(r) + Name(r) == Head(r) + Name(r);
    if upper {
      NoLowerName(r);
    } else {
      FindOther(Head(r), Name(r), CONTENT_LENGTH_UPPER);
    }
    assert LengthText(r) == Name(r) + [32] + Dec(declared);
    assert 13 !in LengthText(r);
    BlankIs();
    FoundAtEnd(Head(r), LengthText(r), BLANK_LINE);
  }

  /** With the name in capitals, no other C and hence no other spelling of it is in the response. */
  lemma NoLowerName(r: Response)
    requires r.status < 1000 && r.upper && 67 !in Head(r) && 67 !in r.gap && 67 !in r.after && 67 !in r.body
    ensures Find(Text(r), CONTENT_LENGTH, 0) == -1
  {
    hide At, Find, Ascii, Digits3, Dec, CONTENT_LENGTH, CONTENT_LENGTH_UPPER, BLANK_LINE, Head;
    NameLiterals();
    UpperNameLiterals();
    BlankIs();
    var t, head := Text(r), Head(r);
    var rest := r.gap + Dec(r.declared) + r.after + BLANK_LINE + r.body;
    NoCapital(r.declared);
    assert 67 !in rest;
    assert t == head + (CONTENT_LENGTH_UPPER + rest);
    forall j | 0 <= j <= |t|
      ensures !At(t, j, CONTENT_LENGTH)
    {
      if At(t, j, CONTENT_LENGTH) {
        AtOctet(t, j, CONTENT_LENGTH, 0);
        AtOctet(t, j, CONTENT_LENGTH, 1);
        OnlyFirst(head, CONTENT_LENGTH_UPPER, rest, j);
      }
    }
    FindIs(t, CONTENT_LENGTH, 0, -1);
  }

  lemma NoCapital(n: nat)
    ensures 67 !in Dec(n)
  {
    hide Dec;
    assert forall i | 0 <= i < |Dec(n)| :: IsDigit(Dec(n)[i]);
  }

  lemma OnlyFirst(head: seq<byte>, name: seq<byte>, rest: seq<byte>, j: nat)
    requires 67 !in head && 67 !in rest && |name| == 15 && 67 !in name[1..]
    requires j < |head + (name + rest)| && (head + (name + rest))[j] == 67
    ensures j == |head| && (head + (name + rest))[j + 1] == name[1]
  {
  }

  /** An octet more than declared, cut before it and not: the two cuts give different bodies. */
  lemma TooMuchBodyFails()
    ensures var r := Plain(false, 49, 200, [], 1, [65, 66]);
            WellFormed(r) && !SegmentationIndependent(r)
  {
    hide WellFormed, SegmentationIndependent, Text;
    PlainIsWellFormed(false, 49, 200, [], 1, [65, 66]);
    SegmentationExact(Plain(false, 49, 200, [], 1, [65, 66]));
  }

  /**
  A peer that answers 200 with one octet of body, but closes after "HTTP/1.1 2", is taken to have
  answered 2; if it closes before the octet, it is taken to have answered 200 without a body.
  */
  lemma EarlyEndFails()
    ensures var r := Plain(false, 49, 200, [], 1, [65]);
            && WellFormed(r) && 10 < |Text(r)|
            && Outcome(Cut(Text(r), 10)) == Some(Rsp(2, None))
            && Outcome(Cut(Text(r), |Text(r)| - 1)) == Some(Rsp(200, None)) != Whole(r)
  {
    hide WellFormed, Text, Outcome;
    var r := Plain(false, 49, 200, [], 1, [65]);
    PlainIsWellFormed(false, 49, 200, [], 1, [65]);
    AtLeastStatus(r);
    OutcomeOfPrefix(r, 10);
    OutcomeOfPrefix(r, |Text(r)| - 1);
  }

  lemma AtLeastStatus(r: Response)
    requires r.status < 1000
    ensures 15 < |Text(r)|
  {
    hide Text, Head, Header, Dec;
    Layout(r);
  }

  lemma BlankIs()
    ensures BLANK_LINE != [] && BLANK_LINE[0] == 13 && 67 !in BLANK_LINE
  {
  }

  lemma PlainMore(reason: seq<byte>)
    requires NulFree(reason) && 67 !in reason
    ensures NulFree([32] + reason + [13, 10]) && 67 !in [32] + reason + [13, 10]
    ensures NulFree([32]) && NulFree([])
  {
  }

  lemma FoundAtEnd(lead: seq<byte>, part: seq<byte>, pattern: seq<byte>)
    requires pattern != [] && pattern[0] !in part
    ensures Find(lead + part + pattern, pattern, |lead|) == |lead| + |part|
  {
    hide At, Find;
    var t := lead + part + pattern;
    AtAll(t);
    AtSplit(t, 0, lead + part, pattern);
    AtSplit(t, 0, lead, part);
    FindAfter(t, pattern, |lead|, part);
  }
}
