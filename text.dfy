/** Character classes and string built-ins the source uses, restricted to ASCII:
    `toLowerCase`, `toUpperCase`, `trim`, and number-to-string conversion. */
module Text {

  predicate IsUpper(c: char) { 'A' <= c <= 'Z' }
  predicate IsLower(c: char) { 'a' <= c <= 'z' }
  predicate IsDigit(c: char) { '0' <= c <= '9' }

  /** The regular-expression class `[a-z0-9]`. */
  predicate IsLowerAlnum(c: char) { IsLower(c) || IsDigit(c) }

  /** The regular-expression class `[a-zA-Z0-9_]`. */
  predicate IsWordChar(c: char) { IsLower(c) || IsUpper(c) || IsDigit(c) || c == '_' }

  /** The white space `String.prototype.trim` removes (ASCII part). */
  predicate IsSpace(c: char) {
    c == ' ' || c == '\t' || c == '\n' || c == '\r' || c == '\U{C}' || c == '\U{B}'
  }

  function LowerChar(c: char): (d: char)
    ensures !IsUpper(d)
    ensures IsUpper(c) ==> IsLower(d)
    ensures !IsUpper(c) ==> d == c
  {
    if IsUpper(c) then (c as int - 'A' as int + 'a' as int) as char else c
  }

  function UpperChar(c: char): (d: char)
    ensures !IsLower(d)
    ensures IsLower(c) ==> IsUpper(d)
    ensures !IsLower(c) ==> d == c
  {
    if IsLower(c) then (c as int - 'a' as int + 'A' as int) as char else c
  }

  /** `String.prototype.toLowerCase` on ASCII letters. */
  function Lower(s: string): (r: string)
  {
    seq(|s|, i requires 0 <= i < |s| => LowerChar(s[i]))
  }

  lemma LowerOfLowerIsIdentity(s: string)
    requires forall i | 0 <= i < |s| :: !IsUpper(s[i])
    ensures Lower(s) == s
  {
  }

  /** Drops leading white space. */
  function TrimStart(s: string): (r: string)
    ensures |r| <= |s|
    ensures r != [] ==> !IsSpace(r[0])
    ensures s != [] && !IsSpace(s[0]) ==> r == s
    decreases |s|
  {
    if s != [] && IsSpace(s[0]) then TrimStart(s[1..]) else s
  }

  /** Drops trailing white space. */
  function TrimEnd(s: string): (r: string)
    ensures |r| <= |s|
    ensures r != [] ==> !IsSpace(r[|r| - 1])
    ensures s != [] && !IsSpace(s[|s| - 1]) ==> r == s
    decreases |s|
  {
    if s != [] && IsSpace(s[|s| - 1]) then TrimEnd(s[..|s| - 1]) else s
  }

  /** `String.prototype.trim`. */
  function Trim(s: string): string {
    TrimEnd(TrimStart(s))
  }

  /** The trimmed string has no white space at either end. */
  lemma TrimHasNoOuterSpace(s: string)
    ensures |Trim(s)| <= |s|
    ensures Trim(s) != [] ==> !IsSpace(Trim(s)[0]) && !IsSpace(Trim(s)[|Trim(s)| - 1])
  {
    var t := TrimStart(s);
    TrimEndIsPrefix(t);
  }

  lemma {:induction false} TrimStartIsSuffix(s: string)
    ensures TrimStart(s) == s[|s| - |TrimStart(s)|..]
    decreases |s|
  {
    if s != [] && IsSpace(s[0]) {
      TrimStartIsSuffix(s[1..]);
    }
  }

  lemma {:induction false} TrimEndIsPrefix(s: string)
    ensures TrimEnd(s) == s[..|TrimEnd(s)|]
    decreases |s|
  {
    if s != [] && IsSpace(s[|s| - 1]) {
      TrimEndIsPrefix(s[..|s| - 1]);
    }
  }

  /** `Trim(s)` is the slice of `s` that starts after the leading white space. */
  lemma TrimIsSlice(s: string)
    ensures var k := |s| - |TrimStart(s)|;
            k + |Trim(s)| <= |s| && Trim(s) == s[k..k + |Trim(s)|]
  {
    TrimStartIsSuffix(s);
    TrimEndIsPrefix(TrimStart(s));
  }

  lemma TrimOfTrimmedIsIdentity(s: string)
    requires s != [] ==> !IsSpace(s[0]) && !IsSpace(s[|s| - 1])
    ensures Trim(s) == s
  {
  }

  function DigitChar(d: nat): (c: char)
    requires d < 10
    ensures IsDigit(c) && c as int - '0' as int == d
  {
    ('0' as int + d) as char
  }

  /** `String(n)` for a natural number: decimal digits, no leading zero. */
  function NatToString(n: nat): (s: string)
    ensures |s| >= 1
    ensures forall i | 0 <= i < |s| :: IsDigit(s[i])
    ensures s[0] == '0' ==> n == 0 && s == "0"
    decreases n
  {
    if n < 10 then [DigitChar(n)] else NatToString(n / 10) + [DigitChar(n % 10)]
  }

  /** The value of a string of decimal digits. */
  function DigitsValue(s: string): nat
    requires forall i | 0 <= i < |s| :: IsDigit(s[i])
    decreases |s|
  {
    if s == [] then 0
    else
      assert IsDigit(s[|s| - 1]);
      DigitsValue(s[..|s| - 1]) * 10 + (s[|s| - 1] as int - '0' as int)
  }

  /** Reading back the digits of `NatToString(n)` gives `n`. */
  lemma {:induction false} NatToStringRoundTrip(n: nat)
    ensures DigitsValue(NatToString(n)) == n
    decreases n
  {
    if n >= 10 {
      NatToStringRoundTrip(n / 10);
      var s := NatToString(n);
      assert s[..|s| - 1] == NatToString(n / 10);
    }
  }
}
