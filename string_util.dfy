/**
  The string helpers from Chromium's base library and the C++ standard library
  that the SPDY/HTTP header translation calls: std::string::find for one
  character, StringToLowerASCII and base::Int64ToString.
 */
module StringUtil {
  import opened Wrappers

  /** std::string::find(c, start): the first position at or after `start`
      holding `c`, or None where the C++ code gets npos. */
  function Find(s: string, c: char, start: nat): (r: Option<nat>)
    ensures r.Some? ==> start <= r.value < |s| && s[r.value] == c
    ensures r.Some? ==> forall j :: start <= j < r.value ==> s[j] != c
    ensures r.None? ==> forall j :: start <= j < |s| ==> s[j] != c
    decreases |s| - start
  {
    if start >= |s| then None
    else if s[start] == c then Some(start)
    else Find(s, c, start + 1)
  }

  predicate IsUpperAscii(c: char) {
    'A' <= c <= 'Z'
  }

  function ToLowerAsciiChar(c: char): char {
    if IsUpperAscii(c) then (c as int - 'A' as int + 'a' as int) as char else c
  }

  /** StringToLowerASCII: maps 'A'..'Z' to 'a'..'z' and leaves every other
      character alone. */
  function ToLowerAscii(s: string): (r: string)
    ensures |r| == |s|
    ensures forall i :: 0 <= i < |r| ==> !IsUpperAscii(r[i])
    ensures forall i :: 0 <= i < |s| && !IsUpperAscii(s[i]) ==> r[i] == s[i]
    ensures forall i :: 0 <= i < |s| && IsUpperAscii(s[i]) ==>
              'a' <= r[i] <= 'z' && r[i] as int - 'a' as int == s[i] as int - 'A' as int
  {
    seq(|s|, i requires 0 <= i < |s| => ToLowerAsciiChar(s[i]))
  }

  /** Lower-casing twice is lower-casing once: a name that is already
      lower-case is its own normal form. */
  lemma ToLowerAsciiIdempotent(s: string)
    ensures ToLowerAscii(ToLowerAscii(s)) == ToLowerAscii(s)
  {
    var once := ToLowerAscii(s);
    var twice := ToLowerAscii(once);
    assert forall i :: 0 <= i < |once| ==> twice[i] == once[i];
  }

  predicate IsDigit(c: char) {
    '0' <= c <= '9'
  }

  function DigitChar(d: nat): (c: char)
    requires d < 10
    ensures IsDigit(c) && c as int - '0' as int == d
  {
    ('0' as int + d) as char
  }

  /** base::Int64ToString for the non-negative lengths it is given here:
      decimal digits, most significant first, no leading zero. */
  function Int64ToString(n: nat): (s: string)
    ensures |s| >= 1
    ensures forall i :: 0 <= i < |s| ==> IsDigit(s[i])
    ensures |s| > 1 ==> s[0] != '0'
    decreases n
  {
    if n < 10 then [DigitChar(n)] else Int64ToString(n / 10) + [DigitChar(n % 10)]
  }

  /** The number a string of decimal digits denotes. */
  function DecimalValue(s: string): nat
    requires forall i :: 0 <= i < |s| ==> IsDigit(s[i])
  {
    if s == [] then 0
    else
      assert IsDigit(s[|s| - 1]);
      DecimalValue(s[..|s| - 1]) * 10 + (s[|s| - 1] as int - '0' as int)
  }

  /** Reading back the decimal form of `n` gives `n`. */
  lemma {:induction false} Int64ToStringRoundTrip(n: nat)
    ensures DecimalValue(Int64ToString(n)) == n
    decreases n
  {
    var s := Int64ToString(n);
    if n < 10 {
      assert s[..|s| - 1] == [];
    } else {
      Int64ToStringRoundTrip(n / 10);
      assert s[..|s| - 1] == Int64ToString(n / 10);
    }
  }
}
