/** The print and scan pairs of UI/remote_server.c: application identifiers and `VNC://` addresses. */
module RemoteText {
  import opened Bytes
  import opened CText

  // ----- "0x%08x" and "%x" -----

  function HexDigit(n: nat): byte
    requires n < 16
  {
    if n < 10 then 48 + n else 87 + n
  }

  predicate IsHex(c: byte) {
    IsDigit(c) || 97 <= c <= 102 || 65 <= c <= 70
  }

  function HexValue(c: byte): int {
    var v: int := c;
    if IsDigit(c) then v - 48 else if 97 <= v then v - 87 else v - 55
  }

  /** The `width` lowest hexadecimal digits of `n`. */
  function Hex(n: nat, width: nat): (r: seq<byte>)
    ensures |r| == width && forall i | 0 <= i < width :: IsHex(r[i])
  {
    if width == 0 then [] else Hex(n / 16, width - 1) + [HexDigit(n % 16)]
  }

  function PrintAppId(id: uint32): seq<byte> {
    [48, 120] + Hex(id, 8)
  }

  function HexEnd(t: seq<byte>, at: nat): (r: nat)
    requires at <= |t|
    ensures at <= r <= |t| && (r < |t| ==> !IsHex(t[r]))
    ensures forall i | at <= i < r :: IsHex(t[i])
    decreases |t| - at
  {
    if at < |t| && IsHex(t[at]) then HexEnd(t, at + 1) else at
  }

  function HexValueAt(t: seq<byte>, lo: nat, hi: nat): int
    requires lo <= hi <= |t|
    decreases hi
  {
    if lo == hi then 0 else 16 * HexValueAt(t, lo, hi - 1) + HexValue(t[hi - 1])
  }

  /** `%x` into a 32-bit word: white space, a sign, an optional 0x, and digits. */
  function ScanHex(t: seq<byte>): Option<uint32> {
    var a := SkipSpace(t, 0);
    var signed := a < |t| && t[a] in {43, 45};
    var b := if signed then a + 1 else a;
    var prefixed := b + 1 < |t| && t[b] == 48 && t[b + 1] in {88, 120};
    var start := if prefixed then b + 2 else b;
    var end := HexEnd(t, start);
    if start == end && !prefixed then None
    else
      var value := HexValueAt(t, start, end);
      Some((if signed && t[a] == 45 then -value else value) % 0x1_0000_0000)
  }

  function Pow16(width: nat): nat {
    if width == 0 then 1 else 16 * Pow16(width - 1)
  }

  lemma {:induction false} HexRoundTrip(t: seq<byte>, at: nat, n: nat, width: nat)
    requires At(t, at, Hex(n, width)) && n < Pow16(width)
    ensures HexValueAt(t, at, at + width) == n
    decreases width
  {
    if 0 < width {
      AtSplit(t, at, Hex(n / 16, width - 1), [HexDigit(n % 16)]);
      AtOctet(t, at + width - 1, [HexDigit(n % 16)], 0);
      HexRoundTrip(t, at, n / 16, width - 1);
    }
  }

  /** Every 32-bit identifier survives printing and scanning. */
  lemma AppIdRoundTrip(id: uint32)
    ensures ScanHex(PrintAppId(id)) == Some(id)
  {
    hide At, Hex, HexValueAt, SkipSpace, HexEnd;
    var t := PrintAppId(id);
    AtAll(t);
    AtSplit(t, 0, [48, 120], Hex(id, 8));
    OctetsOf(t, 2, Hex(id, 8));
    assert t[0] == 48 && t[1] == 120 && !IsSpace(t[0]);
    assert SkipSpace(t, 0) == 0;
    assert HexEnd(t, 2) == 10;
    Pow16Is();
    HexRoundTrip(t, 2, id, 8);
  }

  lemma Pow16Is()
    ensures Pow16(8) == 0x1_0000_0000
  {
    assert Pow16(4) == 0x1_0000;
  }

  /** Without the prefix, and in capitals, a digit still has its value. */
  lemma UnprefixedAppId(id: uint32)
    ensures ScanHex(Hex(id, 8)) == Some(id)
  {
    hide At, Hex, HexValueAt, SkipSpace, HexEnd;
    var t := Hex(id, 8);
    AtAll(t);
    Classes(t[0]);
    HexIsNoPrefix(id);
    assert SkipSpace(t, 0) == 0;
    assert HexEnd(t, 0) == 8;
    Pow16Is();
    HexRoundTrip(t, 0, id, 8);
  }

  lemma HexIsNoPrefix(id: uint32)
    ensures var t := Hex(id, 8); forall i | 0 <= i < 8 :: t[i] !in {43, 45, 88, 120} && !IsSpace(t[i])
  {
    hide Hex;
    assert forall i | 0 <= i < 8 :: IsHex(Hex(id, 8)[i]);
  }

  lemma HexDigits(d: nat)
    requires d < 16
    ensures HexDigit(d) == if d < 10 then 48 + d else 97 + (d - 10)
    ensures HexValue(HexDigit(d)) == d && (10 <= d ==> IsHex(65 + (d - 10)) && HexValue(65 + (d - 10)) == d)
  {
  }

  // ----- "VNC://%[^:]:%hu" -----

  const SCHEME: seq<byte> := Ascii("VNC://")

  function PrintUri(host: seq<byte>, port: uint16): seq<byte> {
    SCHEME + host + [58] + Dec(port)
  }

  function ColonAt(t: seq<byte>, at: nat): (r: nat)
    requires at <= |t|
    ensures at <= r <= |t| && (r < |t| ==> t[r] == 58)
    ensures forall i | at <= i < r :: t[i] != 58
    decreases |t| - at
  {
    if at < |t| && t[at] != 58 then ColonAt(t, at + 1) else at
  }

  /** The text up to the colon, if the scheme is there and the text is not empty. */
  function ScanHost(t: seq<byte>): Option<seq<byte>> {
    if !At(t, 0, SCHEME) then None
    else
      var colon := ColonAt(t, |SCHEME|);
      if colon == |SCHEME| then None else Some(Slice(t, |SCHEME|, colon))
  }

  /** `%hu` after the host and its colon. */
  function ScanPort(t: seq<byte>): Option<uint16> {
    if ScanHost(t) == None then None
    else
      var colon := ColonAt(t, |SCHEME|);
      if colon == |t| then None
      else
        match ScanInt(t, colon + 1, |t|)
        case None => None
        case Some((n, _)) => Some(n % 0x1_0000)
  }

  /** Every host without a colon and every port survive printing and scanning. */
  lemma UriRoundTrip(host: seq<byte>, port: uint16)
    requires host != [] && 58 !in host
    ensures ScanHost(PrintUri(host, port)) == Some(host) && ScanPort(PrintUri(host, port)) == Some(port)
  {
    hide At, Slice, ColonAt, Dec, ScanInt, SCHEME;
    var t, n := PrintUri(host, port), |SCHEME|;
    AtAll(t);
    AtSplit(t, 0, SCHEME + host + [58], Dec(port));
    AtSplit(t, 0, SCHEME + host, [58]);
    AtSplit(t, 0, SCHEME, host);
    OctetsOf(t, n, host);
    AtOctet(t, n + |host|, [58], 0);
    SliceAt(t, n, host);
    assert ColonAt(t, n) == n + |host|;
    DecAt(t, n + |host| + 1, port);
    ScanIntIs(t, n + |host| + 1, |t|, n + |host| + 1, |t|);
  }

  /** Exactly which addresses scan: the scheme and something before the next colon; and a number behind it. */
  lemma UriScanExact(t: seq<byte>)
    ensures ScanHost(t).Some? <==> 6 < |t| && t[..6] == [86, 78, 67, 58, 47, 47] && t[6] != 58
    ensures ScanPort(t).Some? <==>
            && ScanHost(t).Some?
            && exists colon | 6 < colon < |t| && t[colon] == 58 && 58 !in t[6..colon] :: ScanInt(t, colon + 1, |t|).Some?
  {
    hide SCHEME, ScanInt;
    SchemeOctets();
    if ScanHost(t).Some? {
      var colon := ColonAt(t, 6);
      assert 58 !in t[6..colon];
      forall c | 6 < c < |t| && t[c] == 58 && 58 !in t[6..c]
        ensures c == colon
      {
      }
    }
  }

  lemma SchemeOctets()
    ensures SCHEME == [86, 78, 67, 58, 47, 47]
  {
  }
}
