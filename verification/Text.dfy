/** The string operations src/time.rs takes from Rust's standard library. */
module Text {
  import opened Wrappers

  predicate IsDigit(c: char) { '0' <= c <= '9' }

  predicate AllDigits(s: string) { forall i :: 0 <= i < |s| ==> IsDigit(s[i]) }

  /** Unicode `White_Space`, the class `str::trim` removes. */
  predicate IsWhitespace(c: char) {
    '\U{9}' <= c <= '\U{d}' || c == ' ' || c == '\U{85}' || c == '\U{a0}' || c == '\U{1680}'
    || '\U{2000}' <= c <= '\U{200a}' || c == '\U{2028}' || c == '\U{2029}' || c == '\U{202f}'
    || c == '\U{205f}' || c == '\U{3000}'
  }

  function TrimStart(s: string): string {
    if s != [] && IsWhitespace(s[0]) then TrimStart(s[1..]) else s
  }

  function TrimEnd(s: string): string {
    if s != [] && IsWhitespace(s[|s| - 1]) then TrimEnd(s[..|s| - 1]) else s
  }

  function Trim(s: string): string { TrimEnd(TrimStart(s)) }

  /** Index of the first `c` (`str::find`). */
  function Find(s: string, c: char): (r: Option<nat>)
    ensures r.Some? ==> r.value < |s| && s[r.value] == c && c !in s[..r.value]
    ensures r.None? ==> c !in s
  {
    if s == [] then None
    else if s[0] == c then Some(0)
    else
      var i :- Find(s[1..], c);
      assert s[..i + 1] == [s[0]] + s[1..][..i];
      Some(i + 1)
  }

  /** The pieces between the occurrences of `c` (`str::split`). */
  function Split(s: string, c: char): (r: seq<string>)
    ensures r != []
  {
    if s == [] then [[]]
    else
      var rest := Split(s[1..], c);
      if s[0] == c then [[]] + rest else [[s[0]] + rest[0]] + rest[1..]
  }

  function DigitValue(c: char): nat
    requires IsDigit(c)
  {
    (c - '0') as int
  }

  function DigitsValue(s: string): nat
    requires AllDigits(s)
  {
    if s == [] then 0 else 10 * DigitsValue(s[..|s| - 1]) + DigitValue(s[|s| - 1])
  }

  /** `str::parse` for an integer type with bounds `lo` and `hi`: a leading `+` is allowed for
      every type and a leading `-` for the signed ones, then digits of any width. */
  function ParseInt(s: string, lo: int, hi: int): Option<int> {
    var negative := s != [] && s[0] == '-' && lo < 0;
    var digits := if negative || (s != [] && s[0] == '+') then s[1..] else s;
    if digits == [] || !AllDigits(digits) then None
    else
      var value: int := DigitsValue(digits);
      var n := if negative then -value else value;
      if lo <= n <= hi then Some(n) else None
  }

  function DigitChar(d: nat): char
    requires d < 10
  {
    '0' + d as char
  }

  function Decimal(n: nat): string {
    if n < 10 then [DigitChar(n)] else Decimal(n / 10) + [DigitChar(n % 10)]
  }

  function PadLeft(s: string, width: nat): string
    decreases width - |s|
  {
    if |s| >= width then s else PadLeft("0" + s, width)
  }

  /** `{:0width}`: zero-padded, the sign counted in the width. */
  function Padded(n: int, width: nat): string {
    if n < 0 then "-" + PadLeft(Decimal(-n), if width > 0 then width - 1 else 0) else PadLeft(Decimal(n), width)
  }

  function Pow10(n: nat): (r: nat)
    ensures r > 0
  {
    if n == 0 then 1 else 10 * Pow10(n - 1)
  }

  // ---- Splitting undoes joining ----

  lemma {:induction false} SplitWithoutSeparator(s: string, c: char)
    requires c !in s
    ensures Split(s, c) == [s]
  {
    if s != [] {
      SplitWithoutSeparator(s[1..], c);
      assert [s[0]] + s[1..] == s;
    }
  }

  lemma {:induction false} SplitAfterFirst(a: string, c: char, b: string)
    requires c !in a
    ensures Split(a + [c] + b, c) == [a] + Split(b, c)
  {
    var s := a + [c] + b;
    if a == [] {
      assert s[1..] == b;
    } else {
      SplitAfterFirst(a[1..], c, b);
      assert s[1..] == a[1..] + [c] + b;
      assert [a[0]] + a[1..] == a;
    }
  }

  lemma SplitThree(x: string, y: string, z: string, c: char)
    requires c !in x && c !in y && c !in z
    ensures Split(x + [c] + y + [c] + z, c) == [x, y, z]
  {
    assert x + [c] + y + [c] + z == x + [c] + (y + [c] + z);
    SplitAfterFirst(x, c, y + [c] + z);
    SplitAfterFirst(y, c, z);
    SplitWithoutSeparator(z, c);
  }

  /** The first piece ends at the first separator, and the rest splits into the other pieces. */
  lemma {:induction false} SplitAtFirst(s: string, c: char)
    ensures var head := Split(s, c)[0];
            if |Split(s, c)| == 1 then head == s
            else |head| < |s| && s == head + [c] + s[|head| + 1..] && Split(s, c)[1..] == Split(s[|head| + 1..], c)
  {
    if s != [] {
      SplitAtFirst(s[1..], c);
      var rest, head := Split(s[1..], c), Split(s, c)[0];
      if s[0] == c {
        assert s == [c] + s[1..];
      } else if |rest| > 1 {
        assert s == [s[0]] + s[1..];
        assert s[|head| + 1..] == s[1..][|rest[0]| + 1..];
      }
    }
  }

  /** Three pieces are the text between its two separators. */
  lemma SplitThreeRejoins(s: string, c: char)
    requires |Split(s, c)| == 3
    ensures var p := Split(s, c); s == p[0] + [c] + p[1] + [c] + p[2]
  {
    hide Split;
    var p := Split(s, c);
    SplitAtFirst(s, c);
    var rest := s[|p[0]| + 1..];
    SplitAtFirst(rest, c);
    SplitAtFirst(rest[|p[1]| + 1..], c);
    assert Split(rest, c) == [p[1], p[2]] && Split(rest[|p[1]| + 1..], c) == [p[2]];
    assert s == p[0] + [c] + (p[1] + [c] + p[2]);
  }

  lemma {:induction false} FindAbsent(s: string, c: char)
    requires c !in s
    ensures Find(s, c) == None
  {
    if s != [] { FindAbsent(s[1..], c); }
  }

  lemma {:induction false} FindFirst(a: string, c: char, b: string)
    requires c !in a
    ensures Find(a + [c] + b, c) == Some(|a|)
  {
    if a != [] {
      FindFirst(a[1..], c, b);
      assert (a + [c] + b)[1..] == a[1..] + [c] + b;
    }
  }

  /** Every character of `s` is the separator or lies in one of the pieces. */
  lemma {:induction false} SplitCovers(s: string, c: char, i: nat) returns (k: nat)
    requires i < |s| && s[i] != c
    ensures k < |Split(s, c)| && s[i] in Split(s, c)[k]
  {
    var rest := Split(s[1..], c);
    if i == 0 {
      k := 0;
    } else {
      k := SplitCovers(s[1..], c, i - 1);
      if s[0] == c {
        assert Split(s, c)[k + 1] == rest[k];
        k := k + 1;
      }
    }
  }

  lemma TrimKeeps(s: string)
    requires s != [] && !IsWhitespace(s[0]) && !IsWhitespace(s[|s| - 1])
    ensures Trim(s) == s
  {
  }

  // ---- Numerals ----

  lemma {:induction false} DecimalValue(n: nat)
    ensures AllDigits(Decimal(n)) && Decimal(n) != [] && DigitsValue(Decimal(n)) == n
  {
    if n < 10 {
      assert Decimal(n)[..0] == [];
    } else {
      DecimalValue(n / 10);
      assert Decimal(n)[..|Decimal(n)| - 1] == Decimal(n / 10);
    }
  }

  lemma {:induction false} LeadingZero(s: string)
    requires AllDigits(s)
    ensures AllDigits("0" + s) && DigitsValue("0" + s) == DigitsValue(s)
  {
    var t := "0" + s;
    if s != [] {
      LeadingZero(s[..|s| - 1]);
      assert t[..|t| - 1] == "0" + s[..|s| - 1];
    } else {
      assert t[..0] == [];
    }
  }

  lemma {:induction false} PadLeftValue(s: string, width: nat)
    requires AllDigits(s)
    ensures AllDigits(PadLeft(s, width)) && DigitsValue(PadLeft(s, width)) == DigitsValue(s)
    ensures |PadLeft(s, width)| == if |s| >= width then |s| else width
    decreases width - |s|
  {
    if |s| < width {
      LeadingZero(s);
      PadLeftValue("0" + s, width);
    }
  }

  lemma {:induction false} DecimalWidth(n: nat, width: nat)
    requires n < Pow10(width) && width > 0
    ensures |Decimal(n)| <= width
  {
    if n >= 10 { DecimalWidth(n / 10, width - 1); }
  }

  /** A zero-padded numeral parses back to its number, and has its width when the number fits. */
  lemma PaddedParses(n: nat, width: nat, lo: int, hi: int)
    requires width > 0
    ensures var s := Padded(n, width);
            && s != [] && AllDigits(s) && DigitsValue(s) == n
            && (lo <= n <= hi ==> ParseInt(s, lo, hi) == Some(n))
            && (n < Pow10(width) ==> |s| == width)
  {
    DecimalValue(n);
    PadLeftValue(Decimal(n), width);
    if n < Pow10(width) { DecimalWidth(n, width); }
    assert IsDigit(Padded(n, width)[0]);
  }

  /** What `str::parse` accepts contains nothing but digits and a sign. */
  lemma ParsedIntIsAscii(s: string, lo: int, hi: int, c: char)
    requires ParseInt(s, lo, hi).Some? && c in s
    ensures IsDigit(c) || c == '+' || c == '-'
  {
    var i :| 0 <= i < |s| && s[i] == c;
    if i > 0 { assert s[1..][i - 1] == c; }
  }

  /** A number that cannot be negative has no minus sign. */
  lemma NonnegativeHasNoMinus(s: string, lo: int, hi: int)
    requires ParseInt(s, lo, hi).Some? && (lo >= 0 || ParseInt(s, lo, hi).value > 0)
    ensures s != [] && IsDigit(s[|s| - 1])
    ensures forall c :: c in s ==> IsDigit(c) || c == '+'
  {
    forall c | c in s ensures IsDigit(c) || c == '+' {
      var i :| 0 <= i < |s| && s[i] == c;
      if i > 0 { assert s[1..][i - 1] == c; }
    }
    if |s| > 1 { assert s[1..][|s| - 2] == s[|s| - 1]; }
  }
}
