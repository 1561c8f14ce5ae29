/** `split_offset` of src/time.rs as it is written, over the UTF-8 bytes of the text. The rest of the model
    reads characters; wherever the reader goes on to accept, the two agree. */
module OffsetBytes {
  import opened Wrappers
  import opened CheckedInt
  import opened Text
  import opened DateTime
  import opened DateTimeTheorems

  type byte = b: int | 0 <= b < 256

  function Continuation(n: nat): byte { 0x80 + n % 64 }

  function EncodeChar(c: char): (r: seq<byte>)
    ensures r != []
    ensures if IsAscii(c) then r == [c as int] else |r| > 1 && r[|r| - 1] >= 0x80
  {
    var n := c as int;
    if n < 0x80 then [n]
    else if n < 0x800 then [0xc0 + n / 64, Continuation(n)]
    else if n < 0x1_0000 then [0xe0 + n / 4096, Continuation(n / 64), Continuation(n)]
    else [0xf0 + n / 262_144 % 8, Continuation(n / 4096), Continuation(n / 64), Continuation(n)]
  }

  function Encode(s: string): seq<byte> {
    if s == [] then [] else Encode(s[..|s| - 1]) + EncodeChar(s[|s| - 1])
  }

  /** `str::get(..n)`: the characters of the first `n` bytes, if they end between two characters. */
  function Prefix(s: string, n: nat): Option<string> {
    if |Encode(s)| == n then Some(s) else if s == [] then None else Prefix(s[..|s| - 1], n)
  }

  /** `from_utf8` and then `parse::<i64>`: bytes outside ASCII fail the one or the other. */
  function ReadNumber(bytes: seq<byte>): Option<int> {
    if exists i :: 0 <= i < |bytes| && bytes[i] >= 0x80 then None
    else ParseInt(seq(|bytes|, i requires 0 <= i < |bytes| => bytes[i] as char), I64_MIN, I64_MAX)
  }

  function SplitOffsetBytes(s: string): Option<(string, int)> {
    var bytes := Encode(s);
    if s != [] && s[|s| - 1] == 'Z' then Some((s[..|s| - 1], 0))
    else if |bytes| < 6 then Some((s, 0))
    else
      var tail := bytes[|bytes| - 6..];
      if (tail[0] == '+' as int || tail[0] == '-' as int) && tail[3] == ':' as int then
        var hh :- ReadNumber(tail[1..3]);
        var mm :- ReadNumber(tail[4..6]);
        if hh > 14 || mm > 59 then None
        else
          var hhSecs :- CheckedMul(hh, 3600);
          var mmSecs :- CheckedMul(mm, 60);
          var offset :- CheckedAdd(hhSecs, mmSecs);
          var offset :- if tail[0] == '-' as int then Fit(-offset) else Some(offset);
          var time :- Prefix(s, |bytes| - 6);
          Some((time, offset))
      else Some((s, 0))
  }

  predicate AllAscii(s: string) { forall i :: 0 <= i < |s| ==> IsAscii(s[i]) }

  lemma {:induction false} AsciiEncodes(s: string)
    requires AllAscii(s)
    ensures |Encode(s)| == |s| && forall i :: 0 <= i < |s| ==> Encode(s)[i] == s[i] as int
  {
    if s != [] { AsciiEncodes(s[..|s| - 1]); }
  }

  lemma {:induction false} AsciiPrefix(s: string, n: nat)
    requires AllAscii(s) && n <= |s|
    ensures Prefix(s, n) == Some(s[..n])
  {
    AsciiEncodes(s);
    if n < |s| {
      AsciiPrefix(s[..|s| - 1], n);
      assert s[..|s| - 1][..n] == s[..n];
    } else {
      assert s[..n] == s;
    }
  }

  lemma AsciiNumber(s: string, bytes: seq<byte>)
    requires AllAscii(s) && |bytes| == |s| && forall i :: 0 <= i < |s| ==> bytes[i] == s[i] as int
    ensures ReadNumber(bytes) == ParseInt(s, I64_MIN, I64_MAX)
  {
    assert seq(|bytes|, i requires 0 <= i < |bytes| => bytes[i] as char) == s;
  }

  /** On ASCII text the bytes are the characters. */
  lemma AsciiSplitsAlike(s: string)
    requires AllAscii(s)
    ensures SplitOffsetBytes(s) == SplitOffset(s)
  {
    hide ParseInt, Encode, Prefix, ReadNumber;
    AsciiEncodes(s);
    if |s| >= 6 {
      var bytes, chars := Encode(s)[|s| - 6..], s[|s| - 6..];
      AsciiNumber(chars[1..3], bytes[1..3]);
      AsciiNumber(chars[4..6], bytes[4..6]);
      AsciiPrefix(s, |s| - 6);
    }
  }

  lemma LastByteIsCharacter(s: string)
    requires s != [] && Encode(s)[|Encode(s)| - 1] < 0x80
    ensures IsAscii(s[|s| - 1]) && Encode(s) == Encode(s[..|s| - 1]) + [s[|s| - 1] as int]
  {
    var last := EncodeChar(s[|s| - 1]);
    assert Encode(s)[|Encode(s)| - 1] == last[|last| - 1];
  }

  /** A run of ASCII bytes at the end is as many ASCII characters, and what is before it ends between two
      characters. */
  lemma {:induction false} AsciiTail(s: string, k: nat)
    requires k <= |Encode(s)| && forall i :: |Encode(s)| - k <= i < |Encode(s)| ==> Encode(s)[i] < 0x80
    ensures k <= |s| && AllAscii(s[|s| - k..]) && |Encode(s[..|s| - k])| == |Encode(s)| - k
  {
    hide EncodeChar;
    if k == 0 {
      assert s[..|s|] == s;
    } else {
      var front, last := s[..|s| - 1], s[|s| - 1];
      LastByteIsCharacter(s);
      hide Encode;
      assert forall i :: 0 <= i < |Encode(front)| ==> Encode(front)[i] == Encode(s)[i];
      AsciiTail(front, k - 1);
      assert front[..|front| - (k - 1)] == s[..|s| - k];
      assert s[|s| - k..] == front[|front| - (k - 1)..] + [last];
    }
  }

  lemma {:induction false} PrefixAt(s: string, m: nat)
    requires m <= |s|
    ensures |Encode(s[..m])| <= |Encode(s)| && (m < |s| ==> |Encode(s[..m])| < |Encode(s)|)
    ensures Prefix(s, |Encode(s[..m])|) == Some(s[..m])
  {
    if m == |s| {
      assert s[..m] == s;
    } else {
      var front := s[..|s| - 1];
      PrefixAt(front, m);
      assert front[..m] == s[..m];
    }
  }

  lemma NumberIsAscii(bytes: seq<byte>)
    requires ReadNumber(bytes).Some?
    ensures forall i :: 0 <= i < |bytes| ==> bytes[i] < 0x80
  {
  }

  predicate Usable(split: Option<(string, int)>) { split.Some? && ParseTimeOfDay(split.value.0).Some? }

  lemma UsableCharactersAreAscii(s: string)
    requires Usable(SplitOffset(s))
    ensures AllAscii(s)
  {
    hide SplitOffset, ParseTimeOfDay;
    var time := SplitOffset(s).value.0;
    TimeTextIsAscii(time);
    ZoneTextIsAscii(s);
    assert s == time + s[|time|..];
  }

  /** Whatever the byte code splits off is ASCII. */
  lemma SplitBytesAreAscii(s: string)
    requires SplitOffsetBytes(s).Some?
    ensures var time := SplitOffsetBytes(s).value.0; time <= s && AllAscii(s[|time|..])
  {
    hide Encode, ReadNumber, Prefix;
    var bytes := Encode(s);
    if !(s != [] && s[|s| - 1] == 'Z') && SplitOffsetBytes(s).value.0 != s {
      var tail := bytes[|bytes| - 6..];
      NumberIsAscii(tail[1..3]);
      NumberIsAscii(tail[4..6]);
      assert tail == [tail[0]] + tail[1..3] + [tail[3]] + tail[4..6];
      AsciiTail(s, 6);
      PrefixAt(s, |s| - 6);
    }
  }

  lemma UsableBytesAreAscii(s: string)
    requires Usable(SplitOffsetBytes(s))
    ensures AllAscii(s)
  {
    hide SplitOffsetBytes, ParseTimeOfDay;
    var time := SplitOffsetBytes(s).value.0;
    TimeTextIsAscii(time);
    SplitBytesAreAscii(s);
    assert s == time + s[|time|..];
  }

  /** Splitting by bytes and splitting by characters come to the same for every text of which either makes
      a time of day that reads; so the reader accepts the same texts, as the same instants. */
  lemma BytesAgreeWithCharacters(s: string)
    ensures Usable(SplitOffset(s)) || Usable(SplitOffsetBytes(s)) ==> SplitOffset(s) == SplitOffsetBytes(s)
  {
    hide SplitOffset, SplitOffsetBytes, Usable;
    if Usable(SplitOffset(s)) {
      UsableCharactersAreAscii(s);
      AsciiSplitsAlike(s);
    } else if Usable(SplitOffsetBytes(s)) {
      UsableBytesAreAscii(s);
      AsciiSplitsAlike(s);
    }
  }
}
