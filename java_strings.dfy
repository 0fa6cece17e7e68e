/**
 * The few pieces of the Java string library the core relies on:
 * Integer.toString (string concatenation of an int), Integer.parseInt,
 * String.trim and String.split for a literal separator.
 */
module JavaStrings {
  import opened Wrappers

  const INT_MIN: int := -0x8000_0000
  const INT_MAX: int := 0x7fff_ffff

  /** A Java `int`. */
  type Int32 = x: int | INT_MIN <= x <= INT_MAX

  // ---------------------------------------------------------------------
  // Integer.toString / "" + n
  // ---------------------------------------------------------------------

  predicate IsDigit(c: char) { '0' <= c <= '9' }

  function DigitChar(d: nat): (c: char)
    requires d < 10
    ensures IsDigit(c) && c as int - '0' as int == d
  {
    ['0', '1', '2', '3', '4', '5', '6', '7', '8', '9'][d]
  }

  /** Decimal digits of n, most significant first, without leading zeros. */
  function NatToString(n: nat): (s: string)
    ensures |s| > 0
    ensures forall i :: 0 <= i < |s| ==> IsDigit(s[i])
  {
    if n < 10 then [DigitChar(n)] else NatToString(n / 10) + [DigitChar(n % 10)]
  }

  /** What Java prints for an int: an optional minus sign and the decimal digits. */
  function IntToString(n: int): string {
    if n < 0 then "-" + NatToString(-n) else NatToString(n)
  }

  lemma IntToStringShape(n: int)
    ensures |IntToString(n)| > 0
    ensures forall i :: 0 <= i < |IntToString(n)| ==> IsDigit(IntToString(n)[i]) || IntToString(n)[i] == '-'
    ensures ' ' !in IntToString(n)
  {
    var s := IntToString(n);
    if n < 0 {
      assert s == "-" + NatToString(-n);
      forall i | 0 <= i < |s| ensures IsDigit(s[i]) || s[i] == '-' {
        if i > 0 { assert s[i] == NatToString(-n)[i - 1]; }
      }
    }
  }

  // ---------------------------------------------------------------------
  // Integer.parseInt (radix 10)
  // ---------------------------------------------------------------------

  predicate AllDigits(s: string) {
    forall i :: 0 <= i < |s| ==> IsDigit(s[i])
  }

  /** The value of a string of decimal digits, read left to right. */
  function DigitsValue(s: string): (v: nat)
    requires AllDigits(s)
  {
    if s == [] then 0
    else DigitsValue(s[..|s| - 1]) * 10 + (s[|s| - 1] as int - '0' as int)
  }

  /**
   * Integer.parseInt: an optional '+' or '-' followed by at least one digit,
   * with the value inside the int range; None stands for the
   * NumberFormatException the Java method throws otherwise.
   */
  function ParseInt(s: string): (r: Option<Int32>)
    ensures r.Some? ==> |s| > 0
  {
    if s == [] then None
    else
      var negative := s[0] == '-';
      var digits := if s[0] == '-' || s[0] == '+' then s[1..] else s;
      if digits == [] || !AllDigits(digits) then None
      else
        var v: int := if negative then 0 - DigitsValue(digits) else DigitsValue(digits);
        if INT_MIN <= v <= INT_MAX then Some(v) else None
  }

  lemma {:induction false} NatToStringValue(n: nat)
    ensures AllDigits(NatToString(n)) && DigitsValue(NatToString(n)) == n
  {
    var s := NatToString(n);
    if n >= 10 {
      NatToStringValue(n / 10);
      assert s[..|s| - 1] == NatToString(n / 10);
    }
  }

  /** Reading back what Java prints for an int gives the int. */
  lemma IntToStringRoundTrip(n: Int32)
    ensures ParseInt(IntToString(n)) == Some(n)
  {
    if n < 0 {
      NegativeRoundTrip(n);
    } else {
      NonNegativeRoundTrip(n);
    }
  }

  lemma NegativeRoundTrip(n: Int32)
    requires n < 0
    ensures ParseInt(IntToString(n)) == Some(n)
  {
    var m: nat := -(n as int);
    var digits := NatToString(m);
    NatToStringValue(m);
    var s := "-" + digits;
    assert s[1..] == digits;
    assert AllDigits(s[1..]) && DigitsValue(s[1..]) == m;
  }

  lemma NonNegativeRoundTrip(n: Int32)
    requires n >= 0
    ensures ParseInt(IntToString(n)) == Some(n)
  {
    var s := IntToString(n);
    NatToStringValue(n);
    assert IsDigit(s[0]);
  }

  // ---------------------------------------------------------------------
  // String.length: UTF-16 code units
  // ---------------------------------------------------------------------

  /** A character outside the Basic Multilingual Plane, which Java stores as a surrogate pair. */
  predicate IsSupplementary(c: char) { c as int >= 0x1_0000 }

  /**
   * String.length(), which is also what a VARCHAR(n) column of H2 counts: a
   * Dafny `char` is one Unicode scalar value, a Java `char` one UTF-16 code
   * unit, so a supplementary character counts twice.
   */
  function Utf16Length(s: string): (n: nat)
    ensures |s| <= n <= 2 * |s|
  {
    if s == [] then 0 else (if IsSupplementary(s[0]) then 2 else 1) + Utf16Length(s[1..])
  }

  /** Java and Dafny agree on the length exactly for text inside the Basic Multilingual Plane. */
  lemma {:induction false} Utf16LengthIff(s: string)
    ensures Utf16Length(s) == |s| <==> forall i :: 0 <= i < |s| ==> !IsSupplementary(s[i])
    ensures Utf16Length(s) == 2 * |s| <==> forall i :: 0 <= i < |s| ==> IsSupplementary(s[i])
  {
    if s != [] {
      Utf16LengthIff(s[1..]);
      assert forall i :: 1 <= i < |s| ==> s[i] == s[1..][i - 1];
    }
  }

  // ---------------------------------------------------------------------
  // String.trim
  // ---------------------------------------------------------------------

  /** The characters String.trim removes: every code point up to U+0020. */
  predicate IsTrimmable(c: char) { c as int <= ' ' as int }

  function TrimStart(s: string): (r: string)
    ensures |r| <= |s| && r == s[|s| - |r|..]
    ensures r == [] || !IsTrimmable(r[0])
    ensures forall i :: 0 <= i < |s| - |r| ==> IsTrimmable(s[i])
  {
    if s != [] && IsTrimmable(s[0]) then TrimStart(s[1..]) else s
  }

  function TrimEnd(s: string): (r: string)
    ensures |r| <= |s| && r == s[..|r|]
    ensures r == [] || !IsTrimmable(r[|r| - 1])
    ensures forall i :: |r| <= i < |s| ==> IsTrimmable(s[i])
  {
    if s != [] && IsTrimmable(s[|s| - 1]) then TrimEnd(s[..|s| - 1]) else s
  }

  /** String.trim: the input without its leading and trailing control/space characters. */
  function Trim(s: string): string {
    TrimEnd(TrimStart(s))
  }

  /** After Trim neither end is a trimmable character. */
  lemma TrimEnds(s: string)
    ensures Trim(s) == [] || (!IsTrimmable(Trim(s)[0]) && !IsTrimmable(Trim(s)[|Trim(s)| - 1]))
  {
    var a := TrimStart(s);
    var t := TrimEnd(a);
    if t != [] {
      assert t[0] == a[0];
    }
  }

  /** Trim keeps a contiguous piece of its input: what follows the leading run it strips. */
  lemma TrimInfix(s: string)
    ensures |s| - |TrimStart(s)| + |Trim(s)| <= |s|
    ensures Trim(s) == s[|s| - |TrimStart(s)|..|s| - |TrimStart(s)| + |Trim(s)|]
  {
    var a := TrimStart(s);
    var t := TrimEnd(a);
    PrefixOfSuffix(s, |s| - |a|, |t|);
  }

  /** Taking m characters after dropping k is the slice from k to k + m. */
  lemma PrefixOfSuffix(s: string, k: nat, m: nat)
    requires k + m <= |s|
    ensures s[k..][..m] == s[k..k + m]
  {
  }

  /** Trimming twice is trimming once. */
  lemma TrimIdempotent(s: string)
    ensures Trim(Trim(s)) == Trim(s)
  {
    var t := Trim(s);
    TrimEnds(s);
    if t != [] {
      assert TrimStart(t) == t;
      assert TrimEnd(t) == t;
    }
  }

  /** Trim yields "" exactly when every character is trimmable. */
  lemma TrimEmptyIff(s: string)
    ensures Trim(s) == [] <==> forall i :: 0 <= i < |s| ==> IsTrimmable(s[i])
  {
    var a := TrimStart(s);
    if a != [] {
      assert !IsTrimmable(a[0]);
      assert a == s[|s| - |a|..];
      assert !IsTrimmable(s[|s| - |a|]);
    }
  }

  // ---------------------------------------------------------------------
  // String.split with a literal separator
  // ---------------------------------------------------------------------

  /**
   * Element 0 of s.split(sep): the text before the first occurrence of sep,
   * or all of s when sep does not occur. (When sep occurs at index 0 Java
   * yields a leading ""; when s is made of separators only Java's array is
   * empty and indexing it throws, and "" stands for that here: every caller
   * goes on to fail on it.)
   */
  function Before(s: string, sep: string): (r: string)
    requires |sep| > 0
    ensures |r| <= |s| && r == s[..|r|]
  {
    if |s| < |sep| then s
    else if s[..|sep|] == sep then []
    else [s[0]] + Before(s[1..], sep)
  }

  /** All pieces of s between spaces, empty pieces included. */
  function Segments(s: string): (r: seq<string>)
    ensures |r| > 0
  {
    if s == [] then [""]
    else
      var rest := Segments(s[1..]);
      if s[0] == ' ' then [""] + rest else [[s[0]] + rest[0]] + rest[1..]
  }

  function DropTrailingEmpty(xs: seq<string>): (r: seq<string>)
    ensures |r| <= |xs| && r == xs[..|r|]
    ensures r == [] || r[|r| - 1] != ""
  {
    if xs == [] then []
    else if xs[|xs| - 1] == "" then DropTrailingEmpty(xs[..|xs| - 1])
    else xs
  }

  /** s.split(" "): the input itself when there is no space, else the pieces without trailing empties. */
  function SplitOnSpace(s: string): seq<string> {
    if ' ' !in s then [s] else DropTrailingEmpty(Segments(s))
  }

  lemma {:induction false} SegmentsNoSpace(b: string)
    requires ' ' !in b
    ensures Segments(b) == [b]
  {
    if b != [] {
      assert ' ' !in b[1..];
      SegmentsNoSpace(b[1..]);
      assert [b[0]] + b[1..] == b;
    }
  }

  lemma {:induction false} SegmentsOneSpace(a: string, b: string)
    requires ' ' !in a && ' ' !in b
    ensures Segments(a + " " + b) == [a, b]
  {
    if a == [] {
      assert a + " " + b == [' '] + b;
      assert (a + " " + b)[1..] == b;
      SegmentsNoSpace(b);
    } else {
      assert (a + " " + b)[1..] == a[1..] + " " + b;
      assert ' ' !in a[1..];
      SegmentsOneSpace(a[1..], b);
      assert [a[0]] + a[1..] == a;
    }
  }

  /** Splitting "x y" on the space gives the two words. */
  lemma SplitTwoWords(a: string, b: string)
    requires ' ' !in a && ' ' !in b && b != []
    ensures SplitOnSpace(a + " " + b) == [a, b]
  {
    assert (a + " " + b)[|a|] == ' ';
    SegmentsOneSpace(a, b);
  }

  /** No occurrence of sep starts inside x, so the text before the first sep is x. */
  lemma {:induction false} BeforeFirst(x: string, sep: string, rest: string)
    requires |sep| > 0
    requires forall j :: 0 <= j < |x| ==> !(sep <= (x + sep + rest)[j..])
    ensures Before(x + sep + rest, sep) == x
  {
    var s := x + sep + rest;
    if x == [] {
      assert s == sep + rest;
      assert s[..|sep|] == sep;
    } else {
      assert !(sep <= s[0..]);
      assert s[0..] == s;
      assert s[..|sep|] != sep;
      assert s[1..] == x[1..] + sep + rest;
      forall j | 0 <= j < |x[1..]| ensures !(sep <= (x[1..] + sep + rest)[j..]) {
        assert (x[1..] + sep + rest)[j..] == s[j + 1..];
      }
      BeforeFirst(x[1..], sep, rest);
    }
  }
}
