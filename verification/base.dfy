/** Shared vocabulary: optional values, text, and the character classes the
    template scanner and the variable resolver test for. */
module Base {

  /** An optional value; `None` stands for the C code's NULL pointer. */
  datatype Option<+T> = None | Some(value: T) {

    /** The wrapped value, or `default` when there is none. */
    function GetOr(default: T): T {
      match this
      case Some(v) => v
      case None => default
    }
  }

  /** Text is a sequence of Unicode scalar values. */
  type String = seq<char>

  /** `g_ascii_isdigit`. */
  predicate IsDigit(c: char) {
    '0' <= c <= '9'
  }

  /** The regex class `\w`: ASCII letters, digits and the underscore. */
  predicate IsWordChar(c: char) {
    IsDigit(c) || 'a' <= c <= 'z' || 'A' <= c <= 'Z' || c == '_'
  }

  /** Characters that the regex `.` refuses to match under PCRE's "any"
      newline convention (the convention GRegex compiles with by default). */
  predicate IsLineBreak(c: char) {
    c == '\n' || c == '\U{B}' || c == '\U{C}' || c == '\r'
    || c == '\U{85}' || c == '\U{2028}' || c == '\U{2029}'
  }

  /** Every character is a digit. */
  predicate AllDigits(s: String) {
    forall i :: 0 <= i < |s| ==> IsDigit(s[i])
  }

  /** The value of a string of decimal digits. */
  function DecimalValue(ds: String): nat
    requires AllDigits(ds)
  {
    if |ds| == 0 then 0
    else DecimalValue(ds[..|ds| - 1]) * 10 + (ds[|ds| - 1] as int - '0' as int)
  }

  /** The longest prefix of `s` made of decimal digits. */
  function LeadingDigits(s: String): (ds: String)
    ensures AllDigits(ds)
    ensures ds <= s
    ensures |ds| < |s| ==> !IsDigit(s[|ds|])
  {
    if |s| > 0 && IsDigit(s[0]) then [s[0]] + LeadingDigits(s[1..]) else []
  }

  /** C's `atoi` on a string that starts with a digit: the value of its
      leading run of digits, whatever follows. */
  function Atoi(s: String): nat {
    DecimalValue(LeadingDigits(s))
  }

  /** `atoi` ignores everything after the first non-digit character. */
  lemma {:induction false} AtoiStopsAtNonDigit(ds: String, rest: String)
    requires AllDigits(ds)
    requires |rest| > 0 && !IsDigit(rest[0])
    ensures Atoi(ds + rest) == DecimalValue(ds)
  {
    LeadingDigitsOfDigits(ds, rest);
  }

  lemma {:induction false} LeadingDigitsOfDigits(ds: String, rest: String)
    requires AllDigits(ds)
    requires |rest| == 0 || !IsDigit(rest[0])
    ensures LeadingDigits(ds + rest) == ds
  {
    if |ds| > 0 {
      assert (ds + rest)[1..] == ds[1..] + rest;
      LeadingDigitsOfDigits(ds[1..], rest);
    } else {
      assert ds + rest == rest;
    }
  }
}
