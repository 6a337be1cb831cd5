/** Character and string helpers shared by the slug generator, the file
    service and model validation. */
module Text {

  /** The characters both `char.IsWhiteSpace` and the regular-expression class
      `\s` accept: U+0009..U+000D, U+0020, U+0085 and the Unicode separators. */
  predicate IsWhiteSpace(c: char) {
    || '\t' <= c <= '\r'
    || c == ' '
    || c == '\U{85}'
    || c == '\U{A0}'
    || c == '\U{1680}'
    || '\U{2000}' <= c <= '\U{200A}'
    || c == '\U{2028}'
    || c == '\U{2029}'
    || c == '\U{202F}'
    || c == '\U{205F}'
    || c == '\U{3000}'
  }

  /** `string.IsNullOrWhiteSpace` (a null string is modelled as ""). */
  predicate IsNullOrWhiteSpace(s: string) {
    forall i :: 0 <= i < |s| ==> IsWhiteSpace(s[i])
  }

  /** What `[Required]` accepts on a string property: not null, not empty
      and not whitespace only. */
  predicate IsRequiredText(s: string) {
    !IsNullOrWhiteSpace(s)
  }

  predicate IsAsciiUpper(c: char) {
    'A' <= c <= 'Z'
  }

  /** `char.ToLowerInvariant`, restricted to the ASCII letters. */
  function ToLowerChar(c: char): (r: char)
    ensures IsAsciiUpper(c) ==> 'a' <= r <= 'z' && r as int == c as int + 32
    ensures !IsAsciiUpper(c) ==> r == c
  {
    if IsAsciiUpper(c) then (c as int + 32) as char else c
  }

  /** `string.ToLowerInvariant`, restricted to the ASCII letters. */
  function ToLowerInvariant(s: string): (r: string)
    ensures |r| == |s|
    ensures forall i :: 0 <= i < |s| ==> r[i] == ToLowerChar(s[i])
  {
    seq(|s|, i requires 0 <= i < |s| => ToLowerChar(s[i]))
  }

  /** A character outside the Basic Multilingual Plane is a surrogate
      pair in UTF-16. */
  predicate IsSupplementary(c: char) {
    c as int >= 0x1_0000
  }

  /** .NET's `string.Length`, which is also what `[StringLength(n)]` and an
      `nvarchar(n)` column limit: the number of UTF-16 code units, two
      for a supplementary character and one for any other. */
  function Utf16Length(s: string): (n: nat)
    ensures |s| <= n <= 2 * |s|
  {
    if s == [] then 0 else (if IsSupplementary(s[0]) then 2 else 1) + Utf16Length(s[1..])
  }

  /** The UTF-16 length equals the character count iff no character is
      supplementary, and is twice it iff every character is. */
  lemma {:induction false} Utf16LengthExtremes(s: string)
    ensures Utf16Length(s) == |s| <==> forall i :: 0 <= i < |s| ==> !IsSupplementary(s[i])
    ensures Utf16Length(s) == 2 * |s| <==> forall i :: 0 <= i < |s| ==> IsSupplementary(s[i])
  {
    if s != [] {
      Utf16LengthExtremes(s[1..]);
      assert forall i :: 1 <= i < |s| ==> s[i] == s[1..][i - 1];
    }
  }

  /** `s.TrimStart(c)`: drops every leading occurrence of `c`. */
  function TrimStart(s: string, c: char): (r: string)
    ensures |r| <= |s|
    ensures r == s[|s| - |r|..]
    ensures r == [] || r[0] != c
    ensures forall i :: 0 <= i < |s| - |r| ==> s[i] == c
    decreases |s|
  {
    if s != [] && s[0] == c then TrimStart(s[1..], c) else s
  }

  /** `s.TrimEnd(c)`: drops every trailing occurrence of `c`. */
  function TrimEnd(s: string, c: char): (r: string)
    ensures |r| <= |s|
    ensures r == s[..|r|]
    ensures r == [] || r[|r| - 1] != c
    ensures forall i :: |r| <= i < |s| ==> s[i] == c
    decreases |s|
  {
    if s != [] && s[|s| - 1] == c then TrimEnd(s[..|s| - 1], c) else s
  }

  /** How an interpolated `int` is rendered: decimal digits, most
      significant first, with a leading '-' for a negative value. */
  function NatToString(n: nat): (r: string)
    ensures |r| > 0 && forall i :: 0 <= i < |r| ==> '0' <= r[i] <= '9'
  {
    if n < 10 then [(n + '0' as int) as char]
    else NatToString(n / 10) + [(n % 10 + '0' as int) as char]
  }

  function IntToString(n: int): (r: string)
    ensures |r| > 0
    ensures n < 0 <==> r[0] == '-'
  {
    if n < 0 then "-" + NatToString(-n) else NatToString(n)
  }

  /** The value a string of decimal digits denotes. */
  function DigitsValue(s: string): nat
    requires forall i :: 0 <= i < |s| ==> '0' <= s[i] <= '9'
  {
    if s == [] then 0 else DigitsValue(s[..|s| - 1]) * 10 + (s[|s| - 1] as int - '0' as int)
  }

  /** Reading the digits back gives the number: the rendering is exact. */
  lemma {:induction false} NatToStringValue(n: nat)
    ensures DigitsValue(NatToString(n)) == n
  {
    var r := NatToString(n);
    if n >= 10 {
      NatToStringValue(n / 10);
      assert r[..|r| - 1] == NatToString(n / 10);
    }
  }

  /** Distinct keys give distinct messages. */
  lemma IntToStringInjective(a: int, b: int)
    requires IntToString(a) == IntToString(b)
    ensures a == b
  {
    if a < 0 && b < 0 {
      var s := IntToString(a);
      assert s[1..] == NatToString(-a) && s[1..] == NatToString(-b);
      NatToStringValue(-a);
      NatToStringValue(-b);
    } else if 0 <= a && 0 <= b {
      NatToStringValue(a);
      NatToStringValue(b);
    }
  }
}
