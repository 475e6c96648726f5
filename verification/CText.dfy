/**
C strings as octet sequences without a NUL, and what `strstr`, `sscanf` and `sprintf` do
with the directives that the sources use.
*/
module CText {
  import opened Bytes

  datatype Option<+T> = None | Some(value: T)

  /** The octets of an ASCII literal. */
  function Ascii(s: string): (r: seq<byte>)
    ensures |r| == |s|
  {
    seq(|s|, i requires 0 <= i < |s| => s[i] as int % 0x100)
  }

  const CRLF: seq<byte> := [13, 10]

  /** Lines, each ended by CR LF. */
  function LinesText(lines: seq<seq<byte>>): seq<byte> {
    if lines == [] then [] else lines[0] + CRLF + LinesText(lines[1..])
  }

  predicate NulFree(t: seq<byte>) {
    forall i | 0 <= i < |t| :: t[i] != 0
  }

  /** The C string that starts at `m[0]`: everything before the first NUL. */
  function CString(m: seq<byte>): (r: seq<byte>)
    ensures r <= m && NulFree(r)
    ensures |r| < |m| ==> m[|r|] == 0
  {
    if m == [] || m[0] == 0 then [] else [m[0]] + CString(m[1..])
  }

  lemma {:induction false} CStringIs(m: seq<byte>, t: seq<byte>)
    requires |t| < |m| && t == m[..|t|] && NulFree(t) && m[|t|] == 0
    ensures CString(m) == t
    decreases |m|
  {
    var r := CString(m);
  }

  /** The C string of a part of a text is a part of its C string. */
  lemma {:induction false} CStringOfCut(m: seq<byte>, n: nat)
    requires n <= |m|
    ensures var c, d := CString(m), CString(Cut(m, n)); |d| <= |c| && d == Cut(c, |d|)
    decreases n
  {
    if 0 < n && m[0] != 0 {
      assert Cut(m, n)[1..] == Cut(m[1..], n - 1);
      CStringOfCut(m[1..], n - 1);
    }
  }

  predicate IsSpace(c: byte) {
    c == 32 || 9 <= c <= 13
  }

  predicate IsDigit(c: byte) {
    48 <= c <= 57
  }

  /** White space and digits as the C library has them. */
  lemma Classes(c: byte)
    ensures IsSpace(c) <==> c in {9, 10, 11, 12, 13, 32}
    ensures IsDigit(c) <==> c in {48, 49, 50, 51, 52, 53, 54, 55, 56, 57}
  {
  }

  /** The first `n` octets of a text. */
  function Cut(t: seq<byte>, n: nat): (r: seq<byte>)
    requires n <= |t|
    ensures |r| == n
  {
    t[..n]
  }

  // ----- strstr -----

  /** The first occurrence of `pattern` at or after `from`, or -1. */
  function Find(t: seq<byte>, pattern: seq<byte>, from: nat): (r: int)
    requires from <= |t|
    ensures r == -1 || (from <= r && At(t, r, pattern))
    ensures forall j | from <= j <= |t| && (j < r || r == -1) :: !At(t, j, pattern)
    decreases |t| - from
  {
    if At(t, from, pattern) then from
    else if from == |t| then -1
    else Find(t, pattern, from + 1)
  }

  lemma FindIs(t: seq<byte>, pattern: seq<byte>, from: nat, at: int)
    requires from <= |t|
    requires at == -1 || (from <= at && At(t, at, pattern))
    requires forall j | from <= j <= |t| && (j < at || at == -1) :: !At(t, j, pattern)
    ensures Find(t, pattern, from) == at
  {
    hide At;
    var r := Find(t, pattern, from);
  }

  lemma AtPrefix(t: seq<byte>, n: nat, j: nat, pattern: seq<byte>)
    requires n <= |t|
    ensures At(Cut(t, n), j, pattern) <==> j + |pattern| <= n && At(t, j, pattern)
  {
    if j + |pattern| <= n {
      assert Cut(t, n)[j..j + |pattern|] == t[j..j + |pattern|];
    }
  }

  /** Searching a prefix finds what searching the whole finds, if the prefix has room for it. */
  lemma FindInPrefix(t: seq<byte>, n: nat, pattern: seq<byte>, from: nat)
    requires from <= n <= |t|
    ensures var r := Find(t, pattern, from);
            Find(Cut(t, n), pattern, from) == if r != -1 && r + |pattern| <= n then r else -1
  {
    hide At, Find, Cut;
    var r := Find(t, pattern, from);
    forall j: nat
      ensures At(Cut(t, n), j, pattern) <==> j + |pattern| <= n && At(t, j, pattern)
    {
      AtPrefix(t, n, j, pattern);
    }
    var s := if r != -1 && r + |pattern| <= n then r else -1;
    FindIs(Cut(t, n), pattern, from, s);
  }

  // ----- sscanf: white space and %d -----

  function SkipSpace(t: seq<byte>, at: nat): (r: nat)
    requires at <= |t|
    ensures at <= r <= |t| && (r < |t| ==> !IsSpace(t[r]))
    ensures forall i | at <= i < r :: IsSpace(t[i])
    decreases |t| - at
  {
    if at < |t| && IsSpace(t[at]) then SkipSpace(t, at + 1) else at
  }

  /** The end of the run of at most `width` digits that starts at `at`. */
  function DigitsEnd(t: seq<byte>, at: nat, width: nat): (r: nat)
    requires at <= |t|
    ensures at <= r <= |t| && r <= at + width
    ensures forall i | at <= i < r :: IsDigit(t[i])
    ensures r < |t| && r < at + width ==> !IsDigit(t[r])
    decreases width
  {
    if at < |t| && 0 < width && IsDigit(t[at]) then DigitsEnd(t, at + 1, width - 1) else at
  }

  function Digit(c: byte): int {
    var v: int := c;
    v - 48
  }

  function ValueAt(t: seq<byte>, lo: nat, hi: nat): nat
    requires lo <= hi <= |t| && forall i | lo <= i < hi :: IsDigit(t[i])
    decreases hi
  {
    if lo == hi then 0
    else
      assert IsDigit(t[hi - 1]);
      10 * ValueAt(t, lo, hi - 1) + Digit(t[hi - 1])
  }

  /** `%<width>d`: white space, a sign, and digits; the value and where it ended. */
  function ScanInt(t: seq<byte>, at: nat, width: nat): (r: Option<(int, nat)>)
    requires at <= |t|
    ensures r.Some? ==> at <= r.value.1 <= |t|
  {
    var a := SkipSpace(t, at);
    var signed := a < |t| && 0 < width && t[a] in {43, 45};
    var start := if signed then a + 1 else a;
    var end := DigitsEnd(t, start, if signed then width - 1 else width);
    if start == end then None
    else
      var value: int := ValueAt(t, start, end);
      Some((if signed && t[a] == 45 then -value else value, end))
  }

  /** After white space, digits from `start` to `end` and then no more: this is what `%d` reads. */
  lemma ScanIntIs(t: seq<byte>, at: nat, width: nat, start: nat, end: nat)
    requires at <= start < end <= |t| && end <= start + width
    requires forall i | at <= i < start :: IsSpace(t[i])
    requires forall i | start <= i < end :: IsDigit(t[i])
    requires end < |t| && end < start + width ==> !IsDigit(t[end])
    ensures ScanInt(t, at, width) == Some((ValueAt(t, start, end), end))
  {
    assert IsDigit(t[start]);
    assert SkipSpace(t, at) == start;
    assert DigitsEnd(t, start, width) == end;
  }

  /** Nothing but white space to the end of the text: `%d` reads nothing. */
  lemma ScanIntNothing(t: seq<byte>, at: nat, width: nat)
    requires at <= |t| && forall i | at <= i < |t| :: IsSpace(t[i])
    ensures ScanInt(t, at, width) == None
  {
    assert SkipSpace(t, at) == |t|;
  }

  /** A number that is scanned from a part of a text is scanned from the whole; a single digit is then the same. */
  lemma ScanIntGrows(t: seq<byte>, n: nat, at: nat, width: nat)
    requires at <= n <= |t| && ScanInt(Cut(t, n), at, width).Some?
    ensures var s := ScanInt(t, at, width);
            && s.Some? && (width == 1 ==> s.value.1 == ScanInt(Cut(t, n), at, width).value.1)
  {
    hide ValueAt;
    var c := Cut(t, n);
    var a := SkipSpace(c, at);
    assert forall i | at <= i < a :: IsSpace(c[i]) && c[i] == t[i];
    assert c[a] == t[a] && !IsSpace(t[a]);
    assert SkipSpace(t, at) == a;
    var signed := 0 < width && t[a] in {43, 45};
    var start := if signed then a + 1 else a;
    assert c[start] == t[start] && IsDigit(c[start]);
  }

  // ----- sprintf: %d -----

  function Dec(n: nat): (r: seq<byte>)
    ensures 0 < |r| && forall i | 0 <= i < |r| :: IsDigit(r[i])
    ensures r[0] == 48 <==> n == 0
    ensures n < 10 ==> |r| == 1
  {
    if n < 10 then [48 + n] else Dec(n / 10) + [48 + n % 10]
  }

  lemma ValueOfSame(t: seq<byte>, u: seq<byte>, at: nat, lo: nat, hi: nat)
    requires lo <= hi <= |u| && at + hi <= |t|
    requires forall i | lo <= i < hi :: IsDigit(u[i]) && t[at + i] == u[i]
    ensures forall i | at + lo <= i < at + hi :: IsDigit(t[i])
    ensures ValueAt(t, at + lo, at + hi) == ValueAt(u, lo, hi)
    decreases hi
  {
    assert forall i | at + lo <= i < at + hi :: t[i] == u[i - at];
    if lo < hi {
      ValueOfSame(t, u, at, lo, hi - 1);
    }
  }

  lemma {:induction false} ValueOfDec(n: nat)
    ensures ValueAt(Dec(n), 0, |Dec(n)|) == n
    decreases n
  {
    if n < 10 {
      assert ValueAt(Dec(n), 0, 0) == 0;
    } else {
      ValueOfDec(n / 10);
      ValueOfSame(Dec(n), Dec(n / 10), 0, 0, |Dec(n / 10)|);
    }
  }

  /** A number that starts with another digit than 0 is not 0. */
  lemma {:induction false} ValuePositive(t: seq<byte>, lo: nat, hi: nat)
    requires lo < hi <= |t| && t[lo] != 48 && forall i | lo <= i < hi :: IsDigit(t[i])
    ensures 0 < ValueAt(t, lo, hi)
    decreases hi
  {
    if lo + 1 < hi {
      ValuePositive(t, lo, hi - 1);
    }
  }

  /** Cutting digits off the end does not make a number larger. */
  lemma {:induction false} ValueMonotone(t: seq<byte>, lo: nat, middle: nat, hi: nat)
    requires lo <= middle <= hi <= |t| && forall i | lo <= i < hi :: IsDigit(t[i])
    ensures ValueAt(t, lo, middle) <= ValueAt(t, lo, hi)
    decreases hi
  {
    if middle < hi {
      ValueMonotone(t, lo, middle, hi - 1);
    }
  }

  lemma ValueOfPrefix(t: seq<byte>, n: nat, lo: nat, hi: nat)
    requires lo <= hi <= n <= |t| && forall i | lo <= i < hi :: IsDigit(t[i])
    ensures ValueAt(Cut(t, n), lo, hi) == ValueAt(t, lo, hi)
  {
    ValueOfSame(t, Cut(t, n), 0, lo, hi);
  }

  lemma OctetsOf(t: seq<byte>, at: nat, part: seq<byte>)
    requires At(t, at, part)
    ensures forall i {:trigger t[i]} | at <= i < at + |part| :: t[i] == part[i - at]
  {
    forall i {:trigger t[i]} | at <= i < at + |part|
      ensures t[i] == part[i - at]
    {
      AtOctet(t, at, part, i - at);
    }
  }

  /** A printed number, wherever it stands, has the value that was printed. */
  lemma DecAt(t: seq<byte>, at: nat, n: nat)
    requires At(t, at, Dec(n))
    ensures forall i | at <= i < at + |Dec(n)| :: IsDigit(t[i])
    ensures t[at] == Dec(n)[0]
    ensures ValueAt(t, at, at + |Dec(n)|) == n
  {
    hide Dec, At, ValueAt;
    forall i | 0 <= i < |Dec(n)|
      ensures t[at + i] == Dec(n)[i]
    {
      AtOctet(t, at, Dec(n), i);
    }
    assert t[at + 0] == Dec(n)[0];
    ValueOfSame(t, Dec(n), at, 0, |Dec(n)|);
    ValueOfDec(n);
  }

  /** A sign is one of the characters that `%d` may read, and a minus negates. */
  lemma SignedScan(n: nat, sign: byte)
    requires sign in {43, 45}
    ensures var t, value: int := [sign] + Dec(n), n; ScanInt(t, 0, |t|) == Some((if sign == 45 then -value else value, |t|))
  {
    hide Dec, At, ValueAt;
    var t := [sign] + Dec(n);
    AtAll(t);
    AtSplit(t, 0, [sign], Dec(n));
    DecAt(t, 1, n);
    assert SkipSpace(t, 0) == 0 && t[0] == sign;
    assert DigitsEnd(t, 1, |t| - 1) == |t|;
  }

  lemma FirstOctet(t: seq<byte>, at: nat, part: seq<byte>)
    requires At(t, at, part) && part != []
    ensures t[at] == part[0]
  {
    AtOctet(t, at, part, 0);
  }

  /** A part without the first octet of the pattern does not hide an occurrence. */
  lemma FindAfter(t: seq<byte>, pattern: seq<byte>, from: nat, part: seq<byte>)
    requires pattern != [] && At(t, from, part) && pattern[0] !in part
    requires At(t, from + |part|, pattern)
    ensures Find(t, pattern, from) == from + |part|
  {
    hide At, Find;
    var at := from + |part|;
    forall j | from <= j <= |t| && j < at
      ensures !At(t, j, pattern)
    {
      AtOctet(t, from, part, j - from);
      if At(t, j, pattern) {
        FirstOctet(t, j, pattern);
      }
    }
    FindIs(t, pattern, from, at);
  }
}
