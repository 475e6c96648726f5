/** UI/str.c: owned C strings; a `str_t` is null or an allocation that ends with its only NUL. */
module Str {
  import opened Bytes
  import opened CText

  ghost predicate IsStr(s: array?<byte>)
    reads s
  {
    s != null ==> 0 < s.Length && s[s.Length - 1] == 0 && NulFree(s[..s.Length - 1])
  }

  function Chars(s: array?<byte>): seq<byte>
    reads s
  {
    if s == null || s.Length == 0 then [] else s[..s.Length - 1]
  }

  lemma NullChars()
    ensures Chars(null) == []
  {
  }

  lemma CharsNulFree(s: array?<byte>)
    requires IsStr(s)
    ensures NulFree(Chars(s))
  {
  }

  /** What `*str` points to afterwards: the old text followed by `tail`; appending nothing keeps null null. */
  method StrAppend(str: array?<byte>, tail: seq<byte>) returns (out: array?<byte>)
    requires IsStr(str) && NulFree(tail)
    ensures IsStr(out) && Chars(out) == Chars(str) + tail
    ensures tail == [] ==> out == str
    ensures tail != [] ==> out != null && fresh(out)
    ensures str != null ==> out != null
  {
    var lo := if str == null then 0 else str.Length - 1;
    var ln := |tail|;
    out := str;
    if ln != 0 {
      var buf := new byte[lo + ln + 1](_ => 0);
      if str != null {
        forall i | 0 <= i < lo {
          buf[i] := str[i];
        }
      }
      forall i | 0 <= i < ln {
        buf[lo + i] := tail[i];
      }
      assert buf[..lo + ln] == Chars(str) + tail;
      out := buf;
    }
  }
}
